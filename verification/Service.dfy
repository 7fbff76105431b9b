/** `RequestAuthorizationService` over the durable adapters, and what holds over
    every run of its `evaluate`. */
module Service {
  import opened Ordering
  import opened Fingerprints
  import opened Authorization
  import RateLimiter
  import Replay
  import Registry

  class RequestAuthorizationService {
    const registry: Registry.SQLiteAuthenticationRegistry
    const limiter: RateLimiter.SQLiteRateLimiter
    const guard: Replay.SQLiteReplayGuard
    const policyEpoch: Registry.SQLitePolicyEpoch
    const operation: string

    constructor (registry: Registry.SQLiteAuthenticationRegistry, limiter: RateLimiter.SQLiteRateLimiter,
                 guard: Replay.SQLiteReplayGuard, policyEpoch: Registry.SQLitePolicyEpoch, operation: string)
      ensures this.registry == registry && this.limiter == limiter && this.guard == guard
      ensures this.policyEpoch == policyEpoch && this.operation == operation
    {
      this.registry, this.limiter, this.guard := registry, limiter, guard;
      this.policyEpoch, this.operation := policyEpoch, operation;
    }

    ghost function State(): Counters
      reads limiter, guard
    {
      Counters(limiter.rateWindows, guard.requestReplays)
    }

    /** `evaluate`: a decision and the counters it leaves; registry and epoch untouched. */
    method Evaluate(request: Request, ref: Option<string>, now: int, clock: real) returns (e: Evaluation)
      modifies limiter, guard
      ensures var a := Attempt(request, Registry.ResolveIn(registry.rows, ref), policyEpoch.epoch, now, clock);
              (State(), e) == Authorization.Evaluate(Config(operation, limiter.policy), old(State()), a)
    {
      if !WellFormed(request) { return Deny(AuthorizationInvalid); }
      var resolved := registry.Resolve(ref);
      if resolved.None? { return Deny(AuthenticationUnknown); }
      var p := resolved.value;
      var epoch := policyEpoch.epoch;
      if !p.IsValid(now, epoch) { return Deny(AuthorityStaleOrInvalid); }
      if request.project !in p.allowedProjects { return Deny(ScopeMismatch); }
      if operation !in p.allowedOperations { return Deny(OperationNotAllowed); }
      if request.purpose !in p.allowedPurposes { return Deny(PurposeNotAllowed); }
      var admitted := limiter.Consume(p.principalRef + ":" + operation, clock);
      if !admitted { return Deny(RateLimited); }
      var built := BuildBinding(operation, request, p, now);
      if built.Err? { return Deny(AuthorizationInvalid); }
      var b := built.value;
      var fresh_ := guard.Consume(Replay.Call(request.requestId, b.fingerprint, b.validUntil, now));
      if !fresh_ { return Deny(RequestReplay); }
      return Allow(b);
    }

    /** `revalidate`: reads everything again, changes nothing. */
    method Revalidate(request: Request, b: Binding, now: int) returns (valid: bool)
      ensures valid == Revalidates(operation, Registry.ResolveIn(registry.rows, Some(b.authenticationRef)),
                                   policyEpoch.epoch, request, b, now)
    {
      if !WellFormed(request) { return false; }
      var epoch := policyEpoch.epoch;
      var resolved := registry.Resolve(Some(b.authenticationRef));
      if resolved.None? || !resolved.value.IsValid(now, epoch) { return false; }
      var q := resolved.value;
      if b.policyEpoch != epoch { return false; }
      if b.requestFingerprint != Sha(RequestDoc(request)) { return false; }
      if b.principalRef != q.principalRef { return false; }
      if request.project !in q.allowedProjects { return false; }
      if request.purpose !in q.allowedPurposes || operation !in q.allowedOperations { return false; }
      var candidate := BuildBinding(operation, request, q, b.issuedAt);
      return candidate == Ok(b) && b.IsValid(now, epoch);
    }
  }

  // ----- runs of evaluate, with registry and epoch free to change in between

  function CountersAfter(cfg: Config, attempts: seq<Attempt>): Counters {
    if attempts == [] then Counters(map[], map[])
    else Evaluate(cfg, CountersAfter(cfg, Init(attempts)), Last(attempts)).0
  }

  function Outcome(cfg: Config, attempts: seq<Attempt>): Evaluation
    requires attempts != []
  {
    Evaluate(cfg, CountersAfter(cfg, Init(attempts)), Last(attempts)).1
  }

  /** The attempts that reach the limiter, as limiter calls. */
  function LimiterCalls(cfg: Config, attempts: seq<Attempt>): seq<RateLimiter.Call> {
    if attempts == [] then []
    else
      LimiterCalls(cfg, Init(attempts)) + CallsOf(cfg, Last(attempts))
  }

  function CallsOf(cfg: Config, a: Attempt): seq<RateLimiter.Call> {
    match Screen(cfg.operation, a)
    case Ok(p) => [LimiterCall(cfg.operation, p, a.clock)]
    case Err(_) => []
  }

  /** ALLOW decisions for one principal with `from <= clock < to`. */
  function Allows(cfg: Config, attempts: seq<Attempt>, principalRef: string, from: real, to: real): nat {
    if attempts == [] then 0
    else
      Allows(cfg, Init(attempts), principalRef, from, to) +
      if Outcome(cfg, attempts).Allow? && Outcome(cfg, attempts).binding.principalRef == principalRef
         && from <= Last(attempts).clock < to then 1 else 0
  }

  ghost predicate ClockNondecreasing(attempts: seq<Attempt>) {
    forall i, j :: 0 <= i < j < |attempts| ==> attempts[i].clock <= attempts[j].clock
  }

  /** One evaluation, seen from the limiter. */
  lemma LimiterStep(cfg: Config, k: Counters, a: Attempt, calls: seq<RateLimiter.Call>,
                    key: string, principalRef: string, from: real, to: real)
    requires key == principalRef + ":" + cfg.operation
    requires k.windows == RateLimiter.After(cfg.limits, calls)
    ensures var (next, e) := Evaluate(cfg, k, a);
            && next.windows == RateLimiter.After(cfg.limits, calls + CallsOf(cfg, a))
            && RateLimiter.Hits(cfg.limits, calls + CallsOf(cfg, a), key, from, to) >=
               RateLimiter.Hits(cfg.limits, calls, key, from, to) +
               if e.Allow? && e.binding.principalRef == principalRef && from <= a.clock < to then 1 else 0
  {
    match Screen(cfg.operation, a)
    case Ok(p) =>
      RateLimiter.RunAppend(cfg.limits, calls, LimiterCall(cfg.operation, p, a.clock), key, from, to);
    case Err(_) => assert calls + [] == calls;
  }

  lemma {:induction false} LimiterSeesTheRun(cfg: Config, attempts: seq<Attempt>, principalRef: string, from: real,
                                             to: real)
    ensures CountersAfter(cfg, attempts).windows == RateLimiter.After(cfg.limits, LimiterCalls(cfg, attempts))
    ensures Allows(cfg, attempts, principalRef, from, to) <=
            RateLimiter.Hits(cfg.limits, LimiterCalls(cfg, attempts), principalRef + ":" + cfg.operation, from, to)
  {
    if attempts != [] {
      LimiterSeesTheRun(cfg, Init(attempts), principalRef, from, to);
      var calls, key := LimiterCalls(cfg, Init(attempts)), principalRef + ":" + cfg.operation;
      assert LimiterCalls(cfg, attempts) == calls + CallsOf(cfg, Last(attempts));
      LimiterStep(cfg, CountersAfter(cfg, Init(attempts)), Last(attempts), calls, key, principalRef, from, to);
    }
  }

  lemma {:induction false} LimiterCallsInOrder(cfg: Config, attempts: seq<Attempt>, latest: real)
    requires ClockNondecreasing(attempts)
    requires forall i :: 0 <= i < |attempts| ==> attempts[i].clock <= latest
    ensures RateLimiter.Nondecreasing(LimiterCalls(cfg, attempts))
    ensures forall c :: c in LimiterCalls(cfg, attempts) ==> c.now <= latest
  {
    if attempts != [] { LimiterCallsInOrder(cfg, Init(attempts), Last(attempts).clock); }
  }

  lemma LimiterRunBounded(cfg: Config, attempts: seq<Attempt>, key: string, from: real)
    requires RateLimiter.ValidPolicy(cfg.limits) && ClockNondecreasing(attempts)
    ensures RateLimiter.Hits(cfg.limits, LimiterCalls(cfg, attempts), key, from,
                             from + cfg.limits.windowSeconds as real)
            <= 2 * cfg.limits.maxRequests - 1
  {
    if attempts != [] { LimiterCallsInOrder(cfg, attempts, Last(attempts).clock); }
    RateLimiter.SlidingWindowBound(cfg.limits, LimiterCalls(cfg, attempts), key, from);
  }

  /** However projects, registrations, revocations and epochs vary, one principal
      gets at most `2 * maxRequests - 1` ALLOWs in any stretch of one window. */
  lemma AllowsPerPrincipalBounded(cfg: Config, attempts: seq<Attempt>, principalRef: string, from: real)
    requires RateLimiter.ValidPolicy(cfg.limits) && ClockNondecreasing(attempts)
    ensures Allows(cfg, attempts, principalRef, from,
                   from + cfg.limits.windowSeconds as real) <= 2 * cfg.limits.maxRequests - 1
  {
    LimiterSeesTheRun(cfg, attempts, principalRef, from, from + cfg.limits.windowSeconds as real);
    LimiterRunBounded(cfg, attempts, principalRef + ":" + cfg.operation, from);
  }

  // ----- which requests the guard refuses

  /** A run of `evaluate` over a guard of type `G`.  Before attempt `k` the limiter
      holds `windows[k]` and the guard `guards[k]`; `asked[k]` is the binding the
      attempt brings to the guard, or why it does not get there. */
  datatype Run<G> = Run(attempts: seq<Attempt>, windows: seq<RateLimiter.Windows>, guards: seq<G>,
                        asked: seq<Result<Binding, Reason>>, decisions: seq<Evaluation>)

  ghost predicate Shaped<G>(r: Run<G>) {
    && |r.windows| == |r.guards| == |r.attempts| + 1
    && |r.asked| == |r.decisions| == |r.attempts|
  }

  ghost predicate IsRun(cfg: Config, r: Run<Replay.Table>) {
    && Shaped(r) && r.windows[0] == map[] && r.guards[0] == map[]
    && forall k :: 0 <= k < |r.attempts| ==> IsStep(cfg, r, k)
  }

  ghost predicate IsStep(cfg: Config, r: Run<Replay.Table>, k: nat)
    requires Shaped(r) && k < |r.attempts|
  {
    && r.asked[k] == Ask(cfg, r.windows[k], r.attempts[k]).1
    && (Counters(r.windows[k + 1], r.guards[k + 1]), r.decisions[k]) ==
       Evaluate(cfg, Counters(r.windows[k], r.guards[k]), r.attempts[k])
  }

  /** Attempt `i` was allowed, and no attempt since that reached the guard, up to
      but not including `n`, came at or after the end of its binding. */
  ghost predicate LiveAllow<G>(r: Run<G>, i: nat, n: nat)
    requires Shaped(r) && i < n <= |r.attempts|
  {
    && r.decisions[i].Allow?
    && forall k :: i < k < n && r.asked[k].Ok? ==> r.attempts[k].now < r.decisions[i].binding.validUntil
  }

  predicate SameId<G>(r: Run<G>, i: nat, j: nat)
    requires i < |r.attempts| && j < |r.attempts|
  {
    r.attempts[i].request.requestId == r.attempts[j].request.requestId
  }

  /** Some earlier ALLOW of the same request id is still live. */
  ghost predicate Repeats<G>(r: Run<G>, j: nat)
    requires Shaped(r) && j < |r.attempts|
  {
    exists i: nat :: i < j && SameId(r, i, j) && LiveAllow(r, i, j + 1)
  }

  function GuardCall<G>(r: Run<G>, k: nat): Option<Replay.Call>
    requires k < |r.attempts| == |r.asked|
  {
    match r.asked[k]
    case Ok(b) => Some(ReplayCall(b, r.attempts[k].now))
    case Err(_) => None
  }

  /** The run as the guard sees it. */
  function GuardCalls<G>(r: Run<G>): seq<Option<Replay.Call>>
    requires |r.asked| == |r.attempts|
  {
    seq(|r.attempts|, k requires 0 <= k < |r.attempts| == |r.asked| => GuardCall(r, k))
  }

  /** One attempt without the protocol's details: what it does to the guard. */
  ghost predicate GuardStep(r: Run<Replay.Table>, k: nat)
    requires Shaped(r) && k < |r.attempts|
  {
    match r.asked[k]
    case Err(reason) =>
      r.guards[k + 1] == r.guards[k] && r.decisions[k] == Deny(reason) && reason != RequestReplay
    case Ok(b) =>
      var call := ReplayCall(b, r.attempts[k].now);
      && b.requestId == r.attempts[k].request.requestId
      && r.guards[k + 1] == Replay.SqlAdvance(r.guards[k], call)
      && r.decisions[k] == if Replay.SqlAdmits(r.guards[k], call) then Allow(b) else Deny(RequestReplay)
  }

  lemma StepOnGuard(cfg: Config, r: Run<Replay.Table>, k: nat)
    requires Shaped(r) && k < |r.attempts| && IsStep(cfg, r, k)
    ensures GuardStep(r, k)
  {
  }

  ghost predicate GuardRun(r: Run<Replay.Table>) {
    Shaped(r) && r.guards[0] == map[] && forall k :: 0 <= k < |r.attempts| ==> GuardStep(r, k)
  }

  lemma RunOnGuard(cfg: Config, r: Run<Replay.Table>)
    requires IsRun(cfg, r)
    ensures GuardRun(r)
  {
    forall k | 0 <= k < |r.attempts| ensures GuardStep(r, k) { StepOnGuard(cfg, r, k); }
  }

  lemma {:induction false} GuardSeesTheRun(r: Run<Replay.Table>, n: nat)
    requires GuardRun(r) && n <= |r.attempts|
    ensures r.guards[n] == Replay.SqlAfter(GuardCalls(r)[..n])
  {
    if n > 0 {
      GuardSeesTheRun(r, n - 1);
      assert GuardStep(r, n - 1);
      assert Init(GuardCalls(r)[..n]) == GuardCalls(r)[..n - 1];
    }
  }

  lemma AllowedIsAccepted(r: Run<Replay.Table>, k: nat)
    requires GuardRun(r) && k < |r.attempts|
    ensures r.decisions[k].Allow? <==> Replay.SqlAcceptedAt(GuardCalls(r), k)
    ensures r.decisions[k].Allow? ==> r.asked[k] == Ok(r.decisions[k].binding)
    ensures r.asked[k].Ok? ==> r.asked[k].value.requestId == r.attempts[k].request.requestId
  {
    assert GuardStep(r, k);
    GuardSeesTheRun(r, k);
  }

  lemma LiveAllowIsLive(r: Run<Replay.Table>, i: nat, j: nat)
    requires GuardRun(r) && i < j < |r.attempts| && r.asked[j].Ok?
    ensures Replay.StillLive(GuardCalls(r), i, j) <==> SameId(r, i, j) && LiveAllow(r, i, j + 1)
  {
    AllowedIsAccepted(r, i);
    AllowedIsAccepted(r, j);
    var calls := GuardCalls(r);
    if r.decisions[i].Allow? {
      assert forall k :: i < k < j + 1 ==> (calls[k].Some? <==> r.asked[k].Ok?);
      assert forall k :: i < k < j + 1 && calls[k].Some? ==> calls[k].value.now == r.attempts[k].now;
    }
  }

  /** The decision on every attempt of every run.  A request that passes screening,
      limiter and binding is refused as a replay if and only if some earlier ALLOW
      of its id is still live: no attempt that reached the guard since, this one
      included, came at or after the end of that ALLOW's binding. */
  lemma ReplayDecisionExact(cfg: Config, r: Run<Replay.Table>, j: nat)
    requires IsRun(cfg, r) && j < |r.attempts|
    ensures r.decisions[j] ==
            match r.asked[j]
            case Err(reason) => Deny(reason)
            case Ok(b) => if Repeats(r, j) then Deny(RequestReplay) else Allow(b)
    ensures r.decisions[j] == Deny(RequestReplay) <==> r.asked[j].Ok? && Repeats(r, j)
  {
    RunOnGuard(cfg, r);
    assert GuardStep(r, j);
    if r.asked[j].Ok? {
      AllowedIsAccepted(r, j);
      Replay.SqlReplayExact(GuardCalls(r), j);
      forall i: nat | i < j
        ensures Replay.StillLive(GuardCalls(r), i, j) <==> SameId(r, i, j) && LiveAllow(r, i, j + 1)
      {
        LiveAllowIsLive(r, i, j);
      }
    }
  }

  /** In every run a request id that was allowed is not allowed again while every
      time since is strictly before the end of the binding it was allowed with. */
  lemma AllowedOnce(cfg: Config, r: Run<Replay.Table>, i: nat, j: nat)
    requires IsRun(cfg, r) && i < j < |r.attempts| && r.decisions[i].Allow? && SameId(r, i, j)
    requires forall k :: i < k <= j ==> r.attempts[k].now < r.decisions[i].binding.validUntil
    ensures r.decisions[j].Deny?
  {
    assert LiveAllow(r, i, j + 1);
    ReplayDecisionExact(cfg, r, j);
  }

  /** Under times that never step back only the time of the repeat itself counts:
      it is allowed if and only if every earlier binding of its id has ended. */
  lemma RepeatUnderSteadyTime(cfg: Config, r: Run<Replay.Table>, j: nat)
    requires IsRun(cfg, r) && j < |r.attempts| && r.asked[j].Ok?
    requires forall i, k :: 0 <= i < k < |r.attempts| ==> r.attempts[i].now <= r.attempts[k].now
    ensures r.decisions[j].Allow? <==>
            forall i: nat :: i < j && SameId(r, i, j) && r.decisions[i].Allow? ==>
              r.decisions[i].binding.validUntil <= r.attempts[j].now
  {
    ReplayDecisionExact(cfg, r, j);
    forall i: nat | i < j && r.decisions[i].Allow?
      ensures LiveAllow(r, i, j + 1) <==> r.attempts[j].now < r.decisions[i].binding.validUntil
    {
    }
  }

  /** The strictness is needed.  Validity intervals are closed but replay entries
      end at their expiry, so an allowed request repeated at the same time, with
      the limiter still admitting, is refused exactly when that time is before the
      binding's end; at the end itself it is allowed a second time. */
  lemma RepeatIsRefusedBeforeExpiryOnly(cfg: Config, k: Counters, a: Attempt)
    requires Evaluate(cfg, k, a).1.Allow?
    requires var k1 := Evaluate(cfg, k, a).0;
             RateLimiter.Admits(cfg.limits, k1.windows, LimiterCall(cfg.operation, a.resolved.value, a.clock))
    ensures var b := Evaluate(cfg, k, a).1.binding;
            Evaluate(cfg, Evaluate(cfg, k, a).0, a).1 == if a.now < b.validUntil then Deny(RequestReplay) else Allow(b)
  {
    var (k1, e) := Evaluate(cfg, k, a);
    assert k1.replays[a.request.requestId].expiry == e.binding.validUntil;
  }

  // ----- who is allowed, and which refusal is given

  /** A request the program takes: both ids, a query that is not blank, 1 to 1000 results. */
  ghost predicate ProperRequest(q: Request) {
    && q.requestId != "" && q.project != "" && 1 <= q.maxResults <= 1000
    && exists i :: 0 <= i < |q.query| && !IsSpace(q.query[i])
  }

  /** The principal and its attestation are active, of this epoch and in time. */
  ghost predicate InForce(p: Principal, epoch: int, now: int) {
    && p.status == "ACTIVE" && p.policyEpoch == epoch && p.issuedAt <= now <= p.validUntil
    && p.attestation.status == "ACTIVE" && p.attestation.principalRef == p.principalRef
    && p.attestation.issuedAt <= now <= p.attestation.validUntil
  }

  /** The verdict on an attempt before the replay guard, from the facts alone. */
  ghost predicate Verdict(cfg: Config, w: RateLimiter.Windows, a: Attempt, asked: Result<Binding, Reason>) {
    var q := a.request;
    if !ProperRequest(q) then asked == Err(AuthorizationInvalid)
    else if a.resolved.None? then asked == Err(AuthenticationUnknown)
    else
      var p := a.resolved.value;
      if !InForce(p, a.epoch, a.now) then asked == Err(AuthorityStaleOrInvalid)
      else if !exists i :: 0 <= i < |p.allowedProjects| && p.allowedProjects[i] == q.project
      then asked == Err(ScopeMismatch)
      else if !exists i :: 0 <= i < |p.allowedOperations| && p.allowedOperations[i] == cfg.operation then
        asked == Err(OperationNotAllowed)
      else if !exists i :: 0 <= i < |p.allowedPurposes| && p.allowedPurposes[i] == q.purpose then
        asked == Err(PurposeNotAllowed)
      else if !RateLimiter.Admits(cfg.limits, w, RateLimiter.Call(p.principalRef + ":" + cfg.operation, a.clock)) then
        asked == Err(RateLimited)
      else
        && asked.Ok?
        && var b := asked.value;
        && b.requestId == q.requestId && b.project == q.project && b.purpose == q.purpose
           && b.operation == cfg.operation
        && b.authenticationRef == p.authenticationRef && b.principalRef == p.principalRef && b.policyEpoch == a.epoch
        && b.issuedAt == a.now && b.validUntil == p.validUntil && b.IntegrityValid(q)
  }

  /** For genuine principals, the only ones a registry resolves to, an attempt brings a
      binding to the guard exactly when nothing speaks against it, and is refused for
      the first thing that does. */
  lemma AskedExactly(cfg: Config, w: RateLimiter.Windows, a: Attempt)
    requires a.resolved.Some? ==> Genuine(a.resolved.value)
    ensures Verdict(cfg, w, a, Ask(cfg, w, a).1)
  {
    if WellFormed(a.request) && a.resolved.Some? {
      var p := a.resolved.value;
      GenuineMeans(p);
      if Grants(cfg.operation, a.request, p) { GrantedIsBuilt(cfg.operation, a.request, p, a.now); }
    }
  }

  lemma GrantedIsBuilt(operation: string, q: Request, p: Principal, now: int)
    requires WellFormed(q) && Grants(operation, q, p) && q.purpose != "" && p.policyBundleRef != ""
             && p.servicePrincipalRef != ""
    ensures var built := BuildBinding(operation, q, p, now);
            && built.Ok? && built.value.IntegrityValid(q)
            && built.value.requestId == q.requestId && built.value.project == q.project
               && built.value.purpose == q.purpose
            && built.value.operation == operation && built.value.authenticationRef == p.authenticationRef
            && built.value.principalRef == p.principalRef && built.value.policyEpoch == p.policyEpoch
            && built.value.issuedAt == now && built.value.validUntil == p.validUntil
  {
    EffectiveAuthority(operation, q, p);
    var effective := IntersectAuthority(Scopes(operation, q, p));
    assert "project" in effective && effective["project"] != [];
  }

  ghost predicate GenuineRun<G>(r: Run<G>) {
    forall k :: 0 <= k < |r.attempts| && r.attempts[k].resolved.Some? ==> Genuine(r.attempts[k].resolved.value)
  }

  /** Every decision of every run over the durable guard, from the facts alone. */
  lemma EvaluateExactly(cfg: Config, r: Run<Replay.Table>, j: nat)
    requires IsRun(cfg, r) && GenuineRun(r) && j < |r.attempts|
    ensures Verdict(cfg, r.windows[j], r.attempts[j], r.asked[j])
    ensures r.decisions[j] ==
            match r.asked[j]
            case Err(reason) => Deny(reason)
            case Ok(b) => if Repeats(r, j) then Deny(RequestReplay) else Allow(b)
  {
    assert IsStep(cfg, r, j);
    AskedExactly(cfg, r.windows[j], r.attempts[j]);
    ReplayDecisionExact(cfg, r, j);
  }

  /** Any project the principal lists will do, the last as well as the first. */
  lemma SecondProjectIsAllowed(cfg: Config, a: Attempt, p: Principal)
    requires RateLimiter.ValidPolicy(cfg.limits) && a.resolved == Some(p) && Genuine(p) && ProperRequest(a.request)
    requires p.allowedProjects == ["alpha", "beta"] && a.request.project == "beta" && InForce(p, a.epoch, a.now)
    requires cfg.operation in p.allowedOperations && a.request.purpose in p.allowedPurposes
    ensures Evaluate(cfg, Counters(map[], map[]), a).1.Allow?
  {
    AskedExactly(cfg, map[], a);
    assert p.allowedProjects[1] == "beta";
    var i :| 0 <= i < |p.allowedOperations| && p.allowedOperations[i] == cfg.operation;
    var k :| 0 <= k < |p.allowedPurposes| && p.allowedPurposes[k] == a.request.purpose;
  }

  // ----- an id allowed twice while its first binding still runs

  const SAMPLE_CONFIG := Config("provider_call", RateLimiter.Policy(3, 60))

  function SampleRequest(id: string): Request { Request(id, "p", "q", "provider_call", 1) }

  /** A principal as `verified` and `issue` make it, valid from 0 to 100. */
  lemma SamplePrincipal() returns (p: Principal)
    ensures Genuine(p) && IsSample(p)
  {
    SortedSingleton("evidence");
    SortedSingleton("p");
    SortedSingleton("provider_call");
    var attestation := Issue("who", "zone", "issuer", ["evidence"], 0, 100, ACTIVE).value;
    p := Verified("auth", "who", "human", "service", None, None, attestation, ["p"], ["provider_call"],
                  ["provider_call"], [],
                  "bundle", "1",
                  0, 0, 100, ACTIVE).value;
    assert Issue(attestation.principalRef, attestation.zoneId, attestation.issuerRef, ["evidence"],
                 attestation.issuedAt,
                 attestation.validUntil, attestation.status) == Ok(attestation);
    assert Verified(p.authenticationRef, p.principalRef, p.principalType, p.servicePrincipalRef, None, None,
                    p.attestation,
                    ["p"], ["provider_call"], ["provider_call"], [], p.policyBundleRef, p.policyVersion, p.policyEpoch,
                    p.issuedAt,
                    p.validUntil, p.status) == Ok(p);
  }

  lemma SortedSingleton(x: string)
    ensures SortedSet([x]) == [x]
  {
    assert [x][..0] == [];
  }

  /** What a granted request of a valid principal brings to the guard. */
  lemma GrantedIsAsked(cfg: Config, windows: RateLimiter.Windows, a: Attempt, p: Principal)
    requires Screen(cfg.operation, a) == Ok(p) && a.request.purpose != "" && p.policyBundleRef != ""
             && p.servicePrincipalRef != ""
    requires RateLimiter.Admits(cfg.limits, windows, LimiterCall(cfg.operation, p, a.clock))
    ensures var asked := Ask(cfg, windows, a).1;
            asked.Ok? && asked.value.requestId == a.request.requestId && asked.value.validUntil == p.validUntil
  {
    GrantedIsBuilt(cfg.operation, a.request, p, a.now);
  }

  ghost predicate IsSample(p: Principal) {
    && p.IsValid(50, 0) && p.IsValid(100, 0) && p.IsValid(60, 0) && p.validUntil == 100
    && p.allowedProjects == ["p"] && p.allowedOperations == ["provider_call"] && p.allowedPurposes == ["provider_call"]
    && p.policyBundleRef == "bundle" && p.servicePrincipalRef == "service" && p.principalRef == "who"
    && p.authenticationRef == "auth"
  }

  function SampleAttempt(p: Principal, id: string, now: int): Attempt {
    Attempt(SampleRequest(id), Some(p), 0, now, 0.0)
  }

  function SampleWindows(count: nat): RateLimiter.Windows {
    if count == 0 then map[] else map["who:provider_call" := RateLimiter.Window(0.0, count)]
  }

  lemma SampleLimits(count: nat)
    requires count < 3
    ensures var call := RateLimiter.Call("who:provider_call", 0.0);
            && RateLimiter.Admits(SAMPLE_CONFIG.limits, SampleWindows(count), call)
            && RateLimiter.Advance(SAMPLE_CONFIG.limits, SampleWindows(count), call) == SampleWindows(count + 1)
  {
  }

  lemma SampleAsks(p: Principal, id: string, now: int, count: nat)
    requires IsSample(p) && p.IsValid(now, 0) && id != "" && count < 3
    ensures var (windows, asked) := Ask(SAMPLE_CONFIG, SampleWindows(count), SampleAttempt(p, id, now));
            windows == SampleWindows(count + 1) && asked.Ok? && asked.value.requestId == id
              && asked.value.validUntil == 100
  {
    var a := SampleAttempt(p, id, now);
    assert !IsSpace(a.request.query[0]);
    assert Screen("provider_call", a) == Ok(p);
    assert LimiterCall("provider_call", p, 0.0) == RateLimiter.Call("who:provider_call", 0.0) by {
      assert "who" + ":" + "provider_call" == "who:provider_call";
    }
    SampleLimits(count);
    GrantedIsAsked(SAMPLE_CONFIG, SampleWindows(count), a, p);
  }

  /** One more attempt at the end of a run. */
  lemma Extend(cfg: Config, r: Run<Replay.Table>, a: Attempt, b: Binding, windows: RateLimiter.Windows)
    returns (longer: Run<Replay.Table>)
    requires IsRun(cfg, r) && Ask(cfg, Last(r.windows), a) == (windows, Ok(b))
    ensures IsRun(cfg, longer) && longer.attempts == r.attempts + [a] && Last(longer.windows) == windows
    ensures Last(longer.guards) == Replay.SqlAdvance(Last(r.guards), ReplayCall(b, a.now))
    ensures longer.decisions ==
            r.decisions
              + [if Replay.SqlAdmits(Last(r.guards), ReplayCall(b, a.now)) then Allow(b) else Deny(RequestReplay)]
  {
    var (next, e) := Evaluate(cfg, Counters(Last(r.windows), Last(r.guards)), a);
    longer :=
      Run(r.attempts + [a], r.windows + [next.windows], r.guards + [next.replays], r.asked + [Ok(b)],
          r.decisions + [e]);
    forall k | 0 <= k < |longer.attempts| ensures IsStep(cfg, longer, k) {
      if k < |r.attempts| { assert IsStep(cfg, r, k); }
    }
  }

  lemma SampleExtend(p: Principal, r: Run<Replay.Table>, id: string, now: int)
    returns (longer: Run<Replay.Table>, b: Binding)
    requires IsSample(p) && p.IsValid(now, 0) && id != "" && |r.attempts| < 3
    requires IsRun(SAMPLE_CONFIG, r) && Last(r.windows) == SampleWindows(|r.attempts|)
    ensures IsRun(SAMPLE_CONFIG, longer) && longer.attempts == r.attempts + [SampleAttempt(p, id, now)]
    ensures Last(longer.windows) == SampleWindows(|longer.attempts|)
    ensures b.requestId == id && b.validUntil == 100
    ensures Last(longer.guards) == Replay.SqlAdvance(Last(r.guards), ReplayCall(b, now))
    ensures longer.decisions ==
            r.decisions
              + [if Replay.SqlAdmits(Last(r.guards), ReplayCall(b, now)) then Allow(b) else Deny(RequestReplay)]
  {
    SampleAsks(p, id, now, |r.attempts|);
    var asked := Ask(SAMPLE_CONFIG, Last(r.windows), SampleAttempt(p, id, now));
    b := asked.1.value;
    longer := Extend(SAMPLE_CONFIG, r, SampleAttempt(p, id, now), b, asked.0);
  }

  /** Request "r1" is allowed at 50 under a binding that ends at 100, and again at
      60: in between "r2" came at 100 and its purge took the entry of "r1" away. */
  lemma AllowedTwice() returns (r: Run<Replay.Table>)
    ensures IsRun(SAMPLE_CONFIG, r) && |r.attempts| == 3 && SameId(r, 0, 2)
    ensures r.decisions[0].Allow? && r.decisions[0].binding.validUntil == 100
    ensures r.decisions[2].Allow? && r.attempts[2].now == 60
  {
    var p := SamplePrincipal();
    var b;
    r := Run([], [map[]], [map[]], [], []);
    r, b := SampleExtend(p, r, "r1", 50);
    r, b := SampleExtend(p, r, "r2", 100);
    r, b := SampleExtend(p, r, "r1", 60);
  }

  // ----- the in-memory guard, the service's default

  /** `evaluate` over the in-memory guard. */
  function EvaluateInMemory(cfg: Config, maxEntries: nat, windows: RateLimiter.Windows, g: Replay.Guard, a: Attempt)
    : (RateLimiter.Windows, Replay.Guard, Evaluation)
  {
    var (next, asked) := Ask(cfg, windows, a);
    match asked
    case Err(reason) => (next, g, Deny(reason))
    case Ok(b) =>
      var call := ReplayCall(b, a.now);
      (next, Replay.Advance(g, maxEntries, call), if Replay.Admits(g, call) then Allow(b) else Deny(RequestReplay))
  }

  /** `RequestAuthorizationService` as it is built when nothing durable is passed in. */
  class InMemoryAuthorizationService {
    const registry: Registry.AuthenticationRegistry
    const limiter: RateLimiter.FixedWindowRateLimiter
    const guard: Replay.ReplayGuard
    const operation: string
    var policyEpoch: int

    constructor (registry: Registry.AuthenticationRegistry, limiter: RateLimiter.FixedWindowRateLimiter,
                 guard: Replay.ReplayGuard, operation: string, policyEpoch: int)
      requires policyEpoch >= 0
      ensures this.registry == registry && this.limiter == limiter && this.guard == guard
      ensures this.operation == operation && this.policyEpoch == policyEpoch
    {
      this.registry, this.limiter, this.guard := registry, limiter, guard;
      this.operation, this.policyEpoch := operation, policyEpoch;
    }

    method Evaluate(request: Request, ref: Option<string>, now: int, clock: real) returns (e: Evaluation)
      requires guard.Valid()
      modifies limiter, guard
      ensures guard.Valid()
      ensures var a := Attempt(request, Registry.ResolveInMemory(registry.principals, ref), policyEpoch, now, clock);
              (limiter.windows, Replay.Guard(guard.seen, guard.order), e) ==
              EvaluateInMemory(Config(operation, limiter.policy), guard.maxEntries, old(limiter.windows),
                               old(Replay.Guard(guard.seen, guard.order)), a)
    {
      if !WellFormed(request) { return Deny(AuthorizationInvalid); }
      var resolved := registry.Resolve(ref);
      if resolved.None? { return Deny(AuthenticationUnknown); }
      var p := resolved.value;
      if !p.IsValid(now, policyEpoch) { return Deny(AuthorityStaleOrInvalid); }
      if request.project !in p.allowedProjects { return Deny(ScopeMismatch); }
      if operation !in p.allowedOperations { return Deny(OperationNotAllowed); }
      if request.purpose !in p.allowedPurposes { return Deny(PurposeNotAllowed); }
      var admitted := limiter.Consume(p.principalRef + ":" + operation, clock);
      if !admitted { return Deny(RateLimited); }
      var built := BuildBinding(operation, request, p, now);
      if built.Err? { return Deny(AuthorizationInvalid); }
      var b := built.value;
      var accepted := guard.Consume(Replay.Call(request.requestId, b.fingerprint, b.validUntil, now));
      if !accepted { return Deny(RequestReplay); }
      return Allow(b);
    }

    /** `advance_policy_epoch` without an epoch store. */
    method AdvancePolicyEpoch(newEpoch: int) returns (moved: bool)
      modifies this
      ensures moved <==> newEpoch >= old(policyEpoch)
      ensures policyEpoch == if moved then newEpoch else old(policyEpoch)
    {
      if newEpoch < policyEpoch { return false; }
      policyEpoch := newEpoch;
      return true;
    }
  }

  ghost predicate IsMemoryRun(cfg: Config, maxEntries: nat, r: Run<Replay.Guard>) {
    && maxEntries >= 1 && Shaped(r) && r.windows[0] == map[] && Replay.ValidGuard(r.guards[0], maxEntries)
    && forall k :: 0 <= k < |r.attempts| ==> IsMemoryStep(cfg, maxEntries, r, k)
  }

  ghost predicate IsMemoryStep(cfg: Config, maxEntries: nat, r: Run<Replay.Guard>, k: nat)
    requires Shaped(r) && k < |r.attempts|
  {
    && r.asked[k] == Ask(cfg, r.windows[k], r.attempts[k]).1
    && (r.windows[k + 1], r.guards[k + 1], r.decisions[k]) ==
       EvaluateInMemory(cfg, maxEntries, r.windows[k], r.guards[k], r.attempts[k])
  }

  /** One attempt without the protocol's details: what it does to the queue. */
  ghost predicate QueueStep(maxEntries: nat, r: Run<Replay.Guard>, k: nat)
    requires Shaped(r) && k < |r.attempts|
  {
    match r.asked[k]
    case Err(reason) => r.guards[k + 1] == r.guards[k] && r.decisions[k] == Deny(reason)
    case Ok(b) =>
      var call := ReplayCall(b, r.attempts[k].now);
      && b.requestId == r.attempts[k].request.requestId
      && r.guards[k + 1] == Replay.Advance(r.guards[k], maxEntries, call)
      && r.decisions[k] == if Replay.Admits(r.guards[k], call) then Allow(b) else Deny(RequestReplay)
  }

  lemma MemoryStepOnQueue(cfg: Config, maxEntries: nat, r: Run<Replay.Guard>, k: nat)
    requires Shaped(r) && k < |r.attempts| && IsMemoryStep(cfg, maxEntries, r, k)
    ensures QueueStep(maxEntries, r, k)
  {
  }

  function Answers(decisions: seq<Evaluation>): seq<bool> {
    seq(|decisions|, k requires 0 <= k < |decisions| => decisions[k].Allow?)
  }

  /** The run as the in-memory guard sees it. */
  ghost function QueueRun(r: Run<Replay.Guard>): Replay.Run
    requires Shaped(r)
  {
    Replay.Run(r.guards, GuardCalls(r), Answers(r.decisions))
  }

  lemma MemoryRunOnQueue(cfg: Config, maxEntries: nat, r: Run<Replay.Guard>)
    requires IsMemoryRun(cfg, maxEntries, r)
    ensures Replay.IsRun(maxEntries, QueueRun(r))
    ensures forall k :: 0 <= k < |r.attempts| ==> QueueStep(maxEntries, r, k)
  {
    forall k | 0 <= k < |r.attempts| ensures QueueStep(maxEntries, r, k) {
      assert IsMemoryStep(cfg, maxEntries, r, k);
      MemoryStepOnQueue(cfg, maxEntries, r, k);
    }
    forall k | 0 <= k < |r.attempts| ensures Replay.IsStep(maxEntries, QueueRun(r), k) {
      assert QueueStep(maxEntries, r, k);
    }
  }

  /** An earlier ALLOW of the id is live, and fewer than `maxEntries` attempts were
      allowed since. */
  ghost predicate RepeatsWithin(maxEntries: nat, r: Run<Replay.Guard>, i: nat, j: nat)
    requires Shaped(r) && i < j < |r.attempts|
  {
    SameId(r, i, j) && LiveAllow(r, i, j + 1) && Replay.AcceptedBetween(Answers(r.decisions), i + 1, j) < maxEntries
  }

  lemma RepeatIsRemembered(maxEntries: nat, r: Run<Replay.Guard>, i: nat, j: nat)
    requires Shaped(r) && i < j < |r.attempts| && r.asked[j].Ok?
    requires QueueStep(maxEntries, r, i) && QueueStep(maxEntries, r, j)
    ensures GuardCalls(r)[j].Some?
    ensures Replay.Remembered(maxEntries, QueueRun(r), i, j) <==> RepeatsWithin(maxEntries, r, i, j)
  {
    var calls := GuardCalls(r);
    if r.decisions[i].Allow? {
      assert forall k :: i < k < j + 1 ==> (calls[k].Some? <==> r.asked[k].Ok?);
      assert forall k :: i < k < j + 1 && calls[k].Some? ==> calls[k].value.now == r.attempts[k].now;
    }
  }

  /** With the in-memory guard an allowed id is not allowed again while no attempt
      that reached the guard since came at or after the end of its binding and fewer
      than `maxEntries` attempts were allowed in between. */
  lemma AllowedOnceInMemory(cfg: Config, maxEntries: nat, r: Run<Replay.Guard>, i: nat, j: nat)
    requires IsMemoryRun(cfg, maxEntries, r) && i < j < |r.attempts| && RepeatsWithin(maxEntries, r, i, j)
    ensures r.decisions[j].Deny?
  {
    MemoryRunOnQueue(cfg, maxEntries, r);
    assert QueueStep(maxEntries, r, i) && QueueStep(maxEntries, r, j);
    if r.asked[j].Ok? {
      RepeatIsRemembered(maxEntries, r, i, j);
      Replay.NoReplay(maxEntries, QueueRun(r), i, j);
    }
  }

  /** Where allowed bindings end in the order they were issued, that is exact: the
      decision on every attempt of every run from an empty guard. */
  lemma MemoryDecisionExact(cfg: Config, maxEntries: nat, r: Run<Replay.Guard>, j: nat)
    requires IsMemoryRun(cfg, maxEntries, r) && GenuineRun(r) && r.guards[0] == Replay.EMPTY && j < |r.attempts|
    requires forall i, k :: 0 <= i < k < |r.attempts| && r.decisions[i].Allow? && r.decisions[k].Allow? ==>
               r.decisions[i].binding.validUntil <= r.decisions[k].binding.validUntil
    ensures Verdict(cfg, r.windows[j], r.attempts[j], r.asked[j])
    ensures r.decisions[j] ==
            match r.asked[j]
            case Err(reason) => Deny(reason)
            case Ok(b) =>
              if exists i: nat :: i < j && RepeatsWithin(maxEntries, r, i, j) then Deny(RequestReplay) else Allow(b)
  {
    assert IsMemoryStep(cfg, maxEntries, r, j);
    AskedExactly(cfg, r.windows[j], r.attempts[j]);
    MemoryRunOnQueue(cfg, maxEntries, r);
    assert QueueStep(maxEntries, r, j);
    var q := QueueRun(r);
    if r.asked[j].Ok? {
      EndInOrder(maxEntries, r);
      Replay.MemoryReplayExact(maxEntries, q, j);
      forall i: nat | i < j
        ensures Replay.Remembered(maxEntries, q, i, j) <==> RepeatsWithin(maxEntries, r, i, j)
      {
        assert QueueStep(maxEntries, r, i);
        RepeatIsRemembered(maxEntries, r, i, j);
      }
    }
  }

  lemma EndInOrder(maxEntries: nat, r: Run<Replay.Guard>)
    requires Shaped(r) && forall k :: 0 <= k < |r.attempts| ==> QueueStep(maxEntries, r, k)
    requires forall i, k :: 0 <= i < k < |r.attempts| && r.decisions[i].Allow? && r.decisions[k].Allow? ==>
               r.decisions[i].binding.validUntil <= r.decisions[k].binding.validUntil
    ensures Replay.ExpireInOrder(QueueRun(r))
  {
    forall k | 0 <= k < |r.attempts| && r.decisions[k].Allow?
      ensures r.asked[k].Ok? && r.asked[k].value == r.decisions[k].binding
    {
      assert QueueStep(maxEntries, r, k);
    }
  }
}
