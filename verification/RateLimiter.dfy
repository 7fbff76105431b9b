/** The fixed-window request limiters (`pmiri/request_auth.py` in memory,
    `pmiri/control_plane.py` over SQLite) and the bound they give on every
    sliding interval, whichever way it is placed. */
module RateLimiter {
  import opened Ordering

  datatype Policy = Policy(maxRequests: nat, windowSeconds: nat)

  /** What both constructors demand. */
  predicate ValidPolicy(p: Policy) { p.maxRequests >= 1 && p.windowSeconds >= 1 }

  datatype Window = Window(start: real, count: nat)

  type Windows = map<string, Window>

  datatype Call = Call(key: string, now: real)

  /** The window a call falls into: the stored one, or a new one from `now`. */
  function CurrentWindow(p: Policy, w: Windows, c: Call): Window {
    if c.key !in w || c.now - w[c.key].start >= p.windowSeconds as real then Window(c.now, 0) else w[c.key]
  }

  predicate Admits(p: Policy, w: Windows, c: Call) { CurrentWindow(p, w, c).count < p.maxRequests }

  function Advance(p: Policy, w: Windows, c: Call): Windows {
    var current := CurrentWindow(p, w, c);
    w[c.key := if Admits(p, w, c) then current.(count := current.count + 1) else current]
  }

  /** `FixedWindowRateLimiter`. */
  class FixedWindowRateLimiter {
    const policy: Policy
    var windows: Windows

    constructor (policy: Policy)
      requires ValidPolicy(policy)
      ensures this.policy == policy && windows == map[]
    {
      this.policy := policy;
      windows := map[];
    }

    method Consume(key: string, now: real) returns (allowed: bool)
      modifies this
      ensures allowed == Admits(policy, old(windows), Call(key, now))
      ensures windows == Advance(policy, old(windows), Call(key, now))
    {
      var start, count := now, 0;
      if key in windows { start, count := windows[key].start, windows[key].count; }
      if now - start >= policy.windowSeconds as real {
        start, count := now, 0;
      }
      if count >= policy.maxRequests {
        windows := windows[key := Window(start, count)];
        return false;
      }
      windows := windows[key := Window(start, count + 1)];
      return true;
    }
  }

  /** `SQLiteRateLimiter`: one transaction per call over the `rate_windows` table. */
  class SQLiteRateLimiter {
    const policy: Policy
    var rateWindows: Windows

    constructor (policy: Policy)
      requires ValidPolicy(policy)
      ensures this.policy == policy && rateWindows == map[]
    {
      this.policy := policy;
      rateWindows := map[];
    }

    method Consume(key: string, now: real) returns (allowed: bool)
      modifies this
      ensures allowed == Admits(policy, old(rateWindows), Call(key, now))
      ensures rateWindows == Advance(policy, old(rateWindows), Call(key, now))
    {
      var row := if key in rateWindows then rateWindows[key] else Window(now, 0);
      if now - row.start >= policy.windowSeconds as real {
        row := Window(now, 0);
      }
      allowed := row.count < policy.maxRequests;
      if allowed {
        row := row.(count := row.count + 1);
      }
      rateWindows := rateWindows[key := row];
    }
  }

  // ----- runs

  /** The limiter's table after a run of calls from a fresh start. */
  function After(p: Policy, calls: seq<Call>): Windows {
    if calls == [] then map[] else Advance(p, After(p, Init(calls)), Last(calls))
  }

  predicate Accepted(p: Policy, calls: seq<Call>)
    requires calls != []
  {
    Admits(p, After(p, Init(calls)), Last(calls))
  }

  predicate Nondecreasing(calls: seq<Call>) {
    forall i, j :: 0 <= i < j < |calls| ==> calls[i].now <= calls[j].now
  }

  /** How many calls for `key` with `from <= now < to` the run accepts. */
  function Hits(p: Policy, calls: seq<Call>, key: string, from: real, to: real): nat {
    if calls == [] then 0
    else
      Hits(p, Init(calls), key, from, to) +
      if Accepted(p, calls) && Last(calls).key == key && from <= Last(calls).now < to then 1 else 0
  }

  /** What the table knows about the hits inside `[from, from + window)`. */
  ghost predicate Tracks(p: Policy, w: Windows, key: string, from: real, hits: nat) {
    var size := p.windowSeconds as real;
    if key !in w then hits == 0
    else
      var s, n := w[key].start, w[key].count;
      && 1 <= n <= p.maxRequests
      && hits <= 2 * p.maxRequests - 1
      && (s + size <= from ==> hits == 0)
      && (s < from ==> hits <= n - 1)
      && (s == from ==> hits <= n)
      && (from < s < from + size ==> hits <= p.maxRequests - 1 + n)
  }

  lemma TracksStep(p: Policy, w: Windows, c: Call, key: string, from: real, hits: nat)
    requires ValidPolicy(p)
    requires Tracks(p, w, key, from, hits)
    requires c.key == key && key in w ==> w[key].start <= c.now
    ensures var size := p.windowSeconds as real;
            var hit := Admits(p, w, c) && c.key == key && from <= c.now < from + size;
            Tracks(p, Advance(p, w, c), key, from, hits + if hit then 1 else 0)
  {
  }

  lemma {:induction false} StartsInThePast(p: Policy, calls: seq<Call>, key: string, now: real)
    requires key in After(p, calls)
    requires forall i :: 0 <= i < |calls| ==> calls[i].now <= now
    ensures After(p, calls)[key].start <= now
  {
    if calls != [] {
      if key in After(p, Init(calls)) { StartsInThePast(p, Init(calls), key, now); }
    }
  }

  lemma {:induction false} RunTracks(p: Policy, calls: seq<Call>, key: string, from: real)
    requires ValidPolicy(p) && Nondecreasing(calls)
    ensures Tracks(p, After(p, calls), key, from, Hits(p, calls, key, from, from + p.windowSeconds as real))
  {
    if calls != [] {
      RunTracks(p, Init(calls), key, from);
      if key in After(p, Init(calls)) { StartsInThePast(p, Init(calls), key, Last(calls).now); }
      var to := from + p.windowSeconds as real;
      TracksStep(p, After(p, Init(calls)), Last(calls), key, from, Hits(p, Init(calls), key, from, to));
    }
  }

  /** In every run with a nondecreasing clock, no half-open interval one window
      long holds more than `2 * maxRequests - 1` accepted calls of one key. */
  lemma SlidingWindowBound(p: Policy, calls: seq<Call>, key: string, from: real)
    requires ValidPolicy(p) && Nondecreasing(calls)
    ensures Hits(p, calls, key, from, from + p.windowSeconds as real) <= 2 * p.maxRequests - 1
  {
    RunTracks(p, calls, key, from);
  }

  // ----- nobody is refused below the limit

  /** Calls for `key` the run accepts at `from` or later. */
  function Since(p: Policy, calls: seq<Call>, key: string, from: real): nat {
    if calls == [] then 0
    else
      Since(p, Init(calls), key, from) + if Accepted(p, calls) && Last(calls).key == key && from <= Last(calls).now
        then 1 else 0
  }

  /** Calls for `key` the run accepts less than one window before `now`. */
  function Recent(p: Policy, calls: seq<Call>, key: string, now: real): nat {
    if calls == [] then 0
    else
      Recent(p, Init(calls), key, now) +
      if Accepted(p, calls) && Last(calls).key == key && now - Last(calls).now < p.windowSeconds as real then 1 else 0
  }

  lemma {:induction false} SinceIsRecent(p: Policy, calls: seq<Call>, key: string, from: real, now: real)
    requires now - from < p.windowSeconds as real
    ensures Since(p, calls, key, from) <= Recent(p, calls, key, now)
  {
    if calls != [] { SinceIsRecent(p, Init(calls), key, from, now); }
  }

  lemma {:induction false} CountedSince(p: Policy, calls: seq<Call>, key: string)
    requires ValidPolicy(p) && Nondecreasing(calls) && key in After(p, calls)
    ensures After(p, calls)[key].count <= Since(p, calls, key, After(p, calls)[key].start)
  {
    if calls != [] {
      var init, c := Init(calls), Last(calls);
      if key in After(p, init) {
        CountedSince(p, init, key);
        StartsInThePast(p, init, key, c.now);
      }
    }
  }

  /** A call is admitted whenever fewer than `maxRequests` calls of its own key were
      accepted less than one window ago, whatever other keys do. */
  lemma AdmittedBelowTheLimit(p: Policy, calls: seq<Call>, c: Call)
    requires ValidPolicy(p) && Nondecreasing(calls)
    requires Recent(p, calls, c.key, c.now) < p.maxRequests
    ensures Admits(p, After(p, calls), c)
  {
    if c.key in After(p, calls) {
      var w := After(p, calls)[c.key];
      CountedSince(p, calls, c.key);
      if c.now - w.start < p.windowSeconds as real { SinceIsRecent(p, calls, c.key, w.start, c.now); }
    }
  }

  // ----- the bound is attained, and the clock condition is needed

  lemma RunAppend(p: Policy, calls: seq<Call>, c: Call, key: string, from: real, to: real)
    ensures After(p, calls + [c]) == Advance(p, After(p, calls), c)
    ensures Hits(p, calls + [c], key, from, to) == Hits(p, calls, key, from, to) +
            if Admits(p, After(p, calls), c) && c.key == key && from <= c.now < to then 1 else 0
  {
    assert Init(calls + [c]) == calls;
  }

  function Burst(key: string, now: real, n: nat): seq<Call> { seq(n, _ => Call(key, now)) }

  lemma BurstSplit(before: seq<Call>, key: string, now: real, n: nat)
    requires n > 0
    ensures before + Burst(key, now, n) == before + Burst(key, now, n - 1) + [Call(key, now)]
  {
  }

  lemma OneMoreHit(p: Policy, calls: seq<Call>, c: Call, from: real, to: real, w: Window)
    requires CurrentWindow(p, After(p, calls), c) == w && from <= c.now < to
    requires c.now - w.start < p.windowSeconds as real && w.count < p.maxRequests
    ensures Hits(p, calls + [c], c.key, from, to) == Hits(p, calls, c.key, from, to) + 1
    ensures CurrentWindow(p, After(p, calls + [c]), c) == w.(count := w.count + 1)
  {
    RunAppend(p, calls, c, c.key, from, to);
  }

  /** A burst inside the current window is accepted up to the window's limit. */
  lemma {:induction false} BurstHits(p: Policy, before: seq<Call>, key: string, now: real, n: nat, from: real,
                                     to: real, w: Window)
    requires from <= now < to
    requires CurrentWindow(p, After(p, before), Call(key, now)) == w
    requires now - w.start < p.windowSeconds as real && w.count + n <= p.maxRequests
    ensures Hits(p, before + Burst(key, now, n), key, from, to) == Hits(p, before, key, from, to) + n
    ensures CurrentWindow(p, After(p, before + Burst(key, now, n)), Call(key, now)) == w.(count := w.count + n)
  {
    if n == 0 {
      assert before + Burst(key, now, 0) == before;
    } else {
      var shorter := before + Burst(key, now, n - 1);
      BurstHits(p, before, key, now, n - 1, from, to, w);
      BurstSplit(before, key, now, n);
      OneMoreHit(p, shorter, Call(key, now), from, to, w.(count := w.count + n - 1));
    }
  }

  /** One early call, the rest of its window half a window later, then a full
      window: `2 * maxRequests - 1` accepted calls within one window length. */
  lemma BoundIsAttained(p: Policy, key: string) returns (calls: seq<Call>, from: real)
    requires ValidPolicy(p)
    ensures Nondecreasing(calls)
    ensures Hits(p, calls, key, from, from + p.windowSeconds as real) == 2 * p.maxRequests - 1
  {
    var size := p.windowSeconds as real;
    from := size / 2.0;
    var early := EarlyCalls(p, key, from, from + size);
    NextWindow(p, After(p, early), key, from, Window(0.0, p.maxRequests));
    BurstHits(p, early, key, size, p.maxRequests, from, from + size, Window(size, 0));
    calls := early + Burst(key, size, p.maxRequests);
    AppendBurst(early, key, size, p.maxRequests);
  }

  /** A first window filled, all but its first call at `from` or later. */
  lemma EarlyCalls(p: Policy, key: string, from: real, to: real) returns (calls: seq<Call>)
    requires ValidPolicy(p) && 0.0 < from < p.windowSeconds as real && from < to
    ensures Nondecreasing(calls) && forall i :: 0 <= i < |calls| ==> calls[i].now <= from
    ensures Hits(p, calls, key, from, to) == p.maxRequests - 1
    ensures CurrentWindow(p, After(p, calls), Call(key, from)) == Window(0.0, p.maxRequests)
  {
    var first := FirstCall(p, key, from, to);
    BurstHits(p, first, key, from, p.maxRequests - 1, from, to, Window(0.0, 1));
    calls := first + Burst(key, from, p.maxRequests - 1);
    AppendBurst(first, key, from, p.maxRequests - 1);
  }

  lemma FirstCall(p: Policy, key: string, from: real, to: real) returns (calls: seq<Call>)
    requires ValidPolicy(p) && 0.0 < from < p.windowSeconds as real
    ensures |calls| == 1 && calls[0].now == 0.0 && Hits(p, calls, key, from, to) == 0
    ensures CurrentWindow(p, After(p, calls), Call(key, from)) == Window(0.0, 1)
  {
    calls := [] + [Call(key, 0.0)];
    RunAppend(p, [], Call(key, 0.0), key, from, to);
  }

  lemma AppendBurst(calls: seq<Call>, key: string, now: real, n: nat)
    requires Nondecreasing(calls) && forall i :: 0 <= i < |calls| ==> calls[i].now <= now
    ensures Nondecreasing(calls + Burst(key, now, n))
    ensures forall i :: 0 <= i < |calls + Burst(key, now, n)| ==> (calls + Burst(key, now, n))[i].now <= now
  {
  }

  lemma NextWindow(p: Policy, windows: Windows, key: string, now: real, w: Window)
    requires CurrentWindow(p, windows, Call(key, now)) == w && w.count > 0
    ensures var later := w.start + p.windowSeconds as real;
            CurrentWindow(p, windows, Call(key, later)) == Window(later, 0)
  {
  }

  /** A clock that steps back breaks the bound: with two requests per ten seconds,
      four accepted calls carry times in `[0, 10)`. */
  lemma ClockMustNotStepBack(key: string) returns (calls: seq<Call>)
    ensures calls == [Call(key, 0.0), Call(key, 0.0), Call(key, 30.0), Call(key, 1.0), Call(key, 60.0), Call(key, 1.0)]
    ensures !Nondecreasing(calls) && Hits(Policy(2, 10), calls, key, 0.0, 10.0) == 4
  {
    var p := Policy(2, 10);
    calls := OneMore(p, [], Call(key, 0.0), map[], 0);
    calls := OneMore(p, calls, Call(key, 0.0), map[key := Window(0.0, 1)], 1);
    calls := ForwardAndBack(p, calls, key, 30.0, Window(0.0, 2), 2);
    calls := ForwardAndBack(p, calls, key, 60.0, Window(30.0, 2), 3);
    assert calls[3].now < calls[2].now;
  }

  /** A call in a new window and one from the past: one more accepted in `[0, 10)`. */
  lemma ForwardAndBack(p: Policy, calls: seq<Call>, key: string, later: real, w: Window, hits: nat)
    returns (longer: seq<Call>)
    requires p == Policy(2, 10) && later >= 10.0 && later - w.start >= 10.0
    requires After(p, calls) == map[key := w] && Hits(p, calls, key, 0.0, 10.0) == hits
    ensures longer == calls + [Call(key, later), Call(key, 1.0)]
    ensures After(p, longer) == map[key := Window(later, 2)] && Hits(p, longer, key, 0.0, 10.0) == hits + 1
  {
    longer := OneMore(p, calls, Call(key, later), map[key := w], hits);
    longer := OneMore(p, longer, Call(key, 1.0), map[key := Window(later, 1)], hits);
  }

  lemma OneMore(p: Policy, calls: seq<Call>, c: Call, w: Windows, hits: nat) returns (longer: seq<Call>)
    requires After(p, calls) == w && Hits(p, calls, c.key, 0.0, 10.0) == hits
    ensures longer == calls + [c]
    ensures After(p, longer) == Advance(p, w, c)
    ensures Hits(p, longer, c.key, 0.0, 10.0) == hits + if Admits(p, w, c) && 0.0 <= c.now < 10.0 then 1 else 0
  {
    longer := calls + [c];
    RunAppend(p, calls, c, c.key, 0.0, 10.0);
  }
}
