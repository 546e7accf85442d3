/** The sliding-window rate limiter of the security utilities: per identifier,
    the times of recently allowed requests, and a check that allows a request
    only while fewer than `maxRequests` of them fall inside the window. The
    clock reading `Date.now()` is a parameter. */
module RateLimiter {
  import opened Wrappers

  const DefaultMaxRequests: int := 100
  const DefaultWindowMs: int := 60000

  /** The closure's state: its two parameters and the `requests` map. */
  datatype Limiter = Limiter(maxRequests: int, windowMs: int, requests: map<string, seq<int>>)

  /** `createRateLimiter(maxRequests = 100, windowMs = 60000)`: an absent
      argument takes its default, and no identifier has a history yet. */
  function Create(maxRequests: Option<int>, windowMs: Option<int>): (l: Limiter)
    ensures l.maxRequests == (if maxRequests.Some? then maxRequests.value else 100)
    ensures l.windowMs == (if windowMs.Some? then windowMs.value else 60000)
    ensures forall id :: Stored(l, id) == []
  {
    Limiter(maxRequests.GetOr(DefaultMaxRequests), windowMs.GetOr(DefaultWindowMs), map[])
  }

  /** `requests.get(identifier) || []`. */
  function Stored(l: Limiter, id: string): seq<int> {
    if id in l.requests then l.requests[id] else []
  }

  /** `times.filter((time) => now - time < windowMs)`: the times inside the
      window that ends at `now`, in their order. */
  function Recent(times: seq<int>, now: int, windowMs: int): (r: seq<int>)
    ensures |r| <= |times|
    ensures forall t :: t in r <==> t in times && now - t < windowMs
  {
    if |times| == 0 then []
    else
      var rest := Recent(times[1..], now, windowMs);
      assert times == [times[0]] + times[1..];
      if now - times[0] < windowMs then [times[0]] + rest else rest
  }

  /** The limiter's answer for `id` at time `now`, and its state after. A
      request is allowed exactly when fewer than `maxRequests` stored times
      are inside the window; only then is anything written, and then the
      identifier's list becomes the recent times followed by `now`. */
  function Check(l: Limiter, id: string, now: int): (r: (bool, Limiter))
    ensures r.0 <==> |Recent(Stored(l, id), now, l.windowMs)| < l.maxRequests
    ensures !r.0 ==> r.1 == l
    ensures r.1.maxRequests == l.maxRequests && r.1.windowMs == l.windowMs
    ensures r.0 ==> Stored(r.1, id) == Recent(Stored(l, id), now, l.windowMs) + [now]
    ensures forall other :: other != id ==> Stored(r.1, other) == Stored(l, other)
  {
    var recent := Recent(Stored(l, id), now, l.windowMs);
    if |recent| >= l.maxRequests then (false, l)
    else (true, l.(requests := l.requests[id := recent + [now]]))
  }

  // ---------------------------------------------------------------- windows

  /** Filtering for a window twice, the second one ending no earlier, is
      filtering once for the later window. */
  lemma {:induction false} RecentOfRecent(times: seq<int>, before: int, now: int, windowMs: int)
    requires before <= now
    ensures Recent(Recent(times, before, windowMs), now, windowMs) == Recent(times, now, windowMs)
    decreases |times|
  {
    if |times| > 0 {
      RecentOfRecent(times[1..], before, now, windowMs);
      if before - times[0] < windowMs {
        assert ([times[0]] + Recent(times[1..], before, windowMs))[1..] == Recent(times[1..], before, windowMs);
      }
    }
  }

  lemma {:induction false} RecentAppend(a: seq<int>, b: seq<int>, now: int, windowMs: int)
    ensures Recent(a + b, now, windowMs) == Recent(a, now, windowMs) + Recent(b, now, windowMs)
    decreases |a|
  {
    if |a| > 0 {
      RecentAppend(a[1..], b, now, windowMs);
      assert (a + b)[1..] == a[1..] + b;
    } else {
      assert a + b == b;
    }
  }

  /** A window ending later holds no more of the earlier times. */
  lemma {:induction false} RecentShrinks(times: seq<int>, before: int, now: int, windowMs: int)
    requires before <= now
    ensures |Recent(times, now, windowMs)| <= |Recent(times, before, windowMs)|
    decreases |times|
  {
    if |times| > 0 {
      RecentShrinks(times[1..], before, now, windowMs);
    }
  }

  /** The times of `times` inside the window that ends at `at`: no later than
      `at` and less than `windowMs` before it. */
  function Within(times: seq<int>, at: int, windowMs: int): (r: seq<int>)
    ensures |r| <= |times|
    ensures forall t :: t in r <==> t in times && t <= at && at - t < windowMs
  {
    if |times| == 0 then []
    else
      var rest := Within(times[1..], at, windowMs);
      assert times == [times[0]] + times[1..];
      if times[0] <= at && at - times[0] < windowMs then [times[0]] + rest else rest
  }

  /** When no time is later than `at`, the window is what the filter keeps. */
  lemma {:induction false} WithinIsRecent(times: seq<int>, at: int, windowMs: int)
    requires forall k :: 0 <= k < |times| ==> times[k] <= at
    ensures Within(times, at, windowMs) == Recent(times, at, windowMs)
    decreases |times|
  {
    if |times| > 0 {
      WithinIsRecent(times[1..], at, windowMs);
    }
  }

  /** A time after `at` is outside every window ending at `at`. */
  lemma WithinSkipsLater(times: seq<int>, t: int, at: int, windowMs: int)
    requires at < t
    ensures Within(times + [t], at, windowMs) == Within(times, at, windowMs)
  {
    WithinAppend(times, [t], at, windowMs);
    assert Within([t], at, windowMs) == [];
  }

  lemma {:induction false} WithinAppend(a: seq<int>, b: seq<int>, at: int, windowMs: int)
    ensures Within(a + b, at, windowMs) == Within(a, at, windowMs) + Within(b, at, windowMs)
    decreases |a|
  {
    if |a| > 0 {
      WithinAppend(a[1..], b, at, windowMs);
      assert (a + b)[1..] == a[1..] + b;
    } else {
      assert a + b == b;
    }
  }

  // ---------------------------------------------------------------- runs

  /** One call of the checker: the identifier and the clock reading. */
  datatype Call = Call(id: string, now: int)

  /** The clock never runs backwards over the calls. */
  predicate Monotone(calls: seq<Call>) {
    forall i, j :: 0 <= i < j < |calls| ==> calls[i].now <= calls[j].now
  }

  /** The answers to a sequence of calls, in order, and the final state. */
  function Run(l: Limiter, calls: seq<Call>): (r: (seq<bool>, Limiter))
    ensures |r.0| == |calls|
    ensures r.1.maxRequests == l.maxRequests && r.1.windowMs == l.windowMs
  {
    if |calls| == 0 then ([], l)
    else
      var (answers, m) := Run(l, calls[..|calls| - 1]);
      var (ok, m') := Check(m, calls[|calls| - 1].id, calls[|calls| - 1].now);
      (answers + [ok], m')
  }

  /** The times of the allowed calls for `id`, in order. */
  function Allowed(calls: seq<Call>, answers: seq<bool>, id: string): (r: seq<int>)
    requires |answers| == |calls|
    ensures forall t :: t in r ==> exists k :: 0 <= k < |calls| && calls[k].now == t
  {
    if |calls| == 0 then []
    else
      var n := |calls| - 1;
      var earlier := Allowed(calls[..n], answers[..n], id);
      assert forall k :: 0 <= k < n ==> calls[..n][k] == calls[k];
      if answers[n] && calls[n].id == id then earlier + [calls[n].now] else earlier
  }

  /** A run's answers for a prefix of the calls are a prefix of its answers. */
  lemma {:induction false} RunPrefix(l: Limiter, calls: seq<Call>, k: nat)
    requires k <= |calls|
    ensures Run(l, calls[..k]).0 == Run(l, calls).0[..k]
    decreases |calls|
  {
    if k < |calls| {
      var n := |calls| - 1;
      RunPrefix(l, calls[..n], k);
      assert calls[..n][..k] == calls[..k];
    } else {
      assert calls[..k] == calls;
    }
  }

  /** Storing the recent times and `now` keeps the stored list in step with
      the allowed times, for every window ending no earlier than `now`. */
  lemma TrackStep(stored: seq<int>, allowed: seq<int>, now: int, x: int, windowMs: int)
    requires now <= x
    requires Recent(stored, x, windowMs) == Recent(allowed, x, windowMs)
    ensures Recent(Recent(stored, now, windowMs) + [now], x, windowMs) == Recent(allowed + [now], x, windowMs)
  {
    RecentOfRecent(stored, now, x, windowMs);
    RecentAppend(Recent(stored, now, windowMs), [now], x, windowMs);
    RecentAppend(allowed, [now], x, windowMs);
  }

  /** With a clock that never goes back, no allowed time is later than the last call. */
  lemma AllowedNotLater(calls: seq<Call>, answers: seq<bool>, id: string)
    requires |answers| == |calls| && Monotone(calls)
    ensures forall t :: t in Allowed(calls, answers, id) ==> t <= calls[|calls| - 1].now
  {
  }

  /** What a run from a fresh limiter keeps stored for an identifier agrees,
      in every window ending no earlier than the last call, with the times of
      that identifier's allowed calls. */
  lemma {:induction false} RunTracks(l: Limiter, calls: seq<Call>)
    requires forall id :: Stored(l, id) == []
    requires Monotone(calls)
    ensures forall id, n :: (|calls| == 0 || calls[|calls| - 1].now <= n) ==>
      Recent(Stored(Run(l, calls).1, id), n, l.windowMs) == Recent(Allowed(calls, Run(l, calls).0, id), n, l.windowMs)
    decreases |calls|
  {
    if |calls| > 0 {
      var n := |calls| - 1;
      var prefix := calls[..n];
      assert Monotone(prefix);
      RunTracks(l, prefix);
      var (answers0, m0) := Run(l, prefix);
      var c := calls[n];
      var (ok, m1) := Check(m0, c.id, c.now);
      var answers := answers0 + [ok];
      assert Run(l, calls) == (answers, m1);
      assert answers[..n] == answers0;
      forall id, x | c.now <= x
        ensures Recent(Stored(m1, id), x, l.windowMs) == Recent(Allowed(calls, answers, id), x, l.windowMs)
      {
        var before := Allowed(prefix, answers0, id);
        assert |prefix| == 0 || prefix[|prefix| - 1].now <= x;
        assert Recent(Stored(m0, id), x, l.windowMs) == Recent(before, x, l.windowMs);
        if ok && id == c.id {
          TrackStep(Stored(m0, id), before, c.now, x, l.windowMs);
        }
      }
    }
  }

  /** Over a run with a clock that never goes back, a call is allowed exactly
      when fewer than `maxRequests` of the same identifier's earlier allowed
      calls fall inside the window ending at its time. */
  lemma RunAnswers(l: Limiter, calls: seq<Call>, j: nat)
    requires forall id :: Stored(l, id) == []
    requires Monotone(calls) && j < |calls|
    ensures var answers := Run(l, calls).0;
      answers[j] <==> |Recent(Allowed(calls[..j], answers[..j], calls[j].id), calls[j].now, l.windowMs)| < l.maxRequests
  {
    var answers := Run(l, calls).0;
    var prefix := calls[..j];
    RunAnswerIsCheck(l, calls, j);
    assert Monotone(prefix);
    RunTracks(l, prefix);
    assert j > 0 ==> prefix[j - 1].now <= calls[j].now;
  }

  /** The answer to call `j` is the check made in the state the calls before it leave. */
  lemma RunAnswerIsCheck(l: Limiter, calls: seq<Call>, j: nat)
    requires j < |calls|
    ensures Run(l, calls).0[..j] == Run(l, calls[..j]).0
    ensures Run(l, calls).0[j] == Check(Run(l, calls[..j]).1, calls[j].id, calls[j].now).0
  {
    var q := calls[..j + 1];
    assert q[..j] == calls[..j];
    RunPrefix(l, calls, j);
    RunPrefix(l, calls, j + 1);
    assert Run(l, calls).0[j] == Run(l, q).0[j];
  }

  /** `max(maxRequests, 0)`: a limiter with no positive allowance allows nothing. */
  function Allowance(l: Limiter): nat {
    if l.maxRequests < 0 then 0 else l.maxRequests
  }

  /** Adding a time allowed because fewer than `maxRequests` earlier ones were
      in its window leaves at most `maxRequests` in every window ending at or
      after it. */
  lemma LatestWindowBound(before: seq<int>, now: int, at: int, windowMs: int, maxRequests: int)
    requires forall k :: 0 <= k < |before| ==> before[k] <= now
    requires now <= at
    requires |Recent(before, now, windowMs)| < maxRequests
    ensures |Within(before + [now], at, windowMs)| <= maxRequests
  {
    var after := before + [now];
    assert forall k :: 0 <= k < |after| ==> after[k] <= at by {
      forall k | 0 <= k < |after| ensures after[k] <= at {
        if k < |before| {
          assert after[k] == before[k];
        }
      }
    }
    WithinIsRecent(after, at, windowMs);
    RecentShrinks(after, now, at, windowMs);
    RecentAppend(before, [now], now, windowMs);
  }

  /** A call allowed at `c.now`, after a run whose clock never passed it,
      leaves at most `maxRequests` allowed times in a window ending no
      earlier than it. */
  lemma AllowedCallWindow(l: Limiter, prefix: seq<Call>, c: Call, at: int)
    requires forall i :: Stored(l, i) == []
    requires Monotone(prefix) && (|prefix| > 0 ==> prefix[|prefix| - 1].now <= c.now)
    requires Check(Run(l, prefix).1, c.id, c.now).0 && c.now <= at
    ensures |Within(Allowed(prefix, Run(l, prefix).0, c.id) + [c.now], at, l.windowMs)| <= Allowance(l)
  {
    var (answers0, m0) := Run(l, prefix);
    var before := Allowed(prefix, answers0, c.id);
    RunTracks(l, prefix);
    assert Recent(Stored(m0, c.id), c.now, l.windowMs) == Recent(before, c.now, l.windowMs);
    if |prefix| > 0 {
      AllowedNotLater(prefix, answers0, c.id);
    }
    assert forall k :: 0 <= k < |before| ==> before[k] <= c.now by {
      forall k | 0 <= k < |before| ensures before[k] <= c.now {
        assert before[k] in before;
      }
    }
    LatestWindowBound(before, c.now, at, l.windowMs, l.maxRequests);
  }

  /** The limiter's promise: over a run with a clock that never goes back, no
      window of `windowMs`, wherever it ends, holds more than `maxRequests`
      allowed calls of one identifier. */
  lemma {:induction false} RunWindowBound(l: Limiter, calls: seq<Call>, id: string, at: int)
    requires forall i :: Stored(l, i) == []
    requires Monotone(calls)
    ensures |Within(Allowed(calls, Run(l, calls).0, id), at, l.windowMs)| <= Allowance(l)
    decreases |calls|
  {
    if |calls| > 0 {
      var n := |calls| - 1;
      var prefix := calls[..n];
      var c := calls[n];
      assert Monotone(prefix);
      var (answers0, m0) := Run(l, prefix);
      var (ok, m1) := Check(m0, c.id, c.now);
      var answers := answers0 + [ok];
      assert Run(l, calls) == (answers, m1);
      assert answers[..n] == answers0;
      var before := Allowed(prefix, answers0, id);
      if ok && c.id == id {
        var after := before + [c.now];
        if at < c.now {
          WithinSkipsLater(before, c.now, at, l.windowMs);
          RunWindowBound(l, prefix, id, at);
        } else {
          assert n > 0 ==> prefix[n - 1].now <= c.now;
          AllowedCallWindow(l, prefix, c, at);
        }
      } else {
        RunWindowBound(l, prefix, id, at);
      }
    }
  }
}
