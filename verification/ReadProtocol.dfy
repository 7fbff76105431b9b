/** The authenticated read as a protocol: any number of reads in flight, each
    going through evaluate, query, revalidate and disclose, interleaved with
    registrations, revocations and epoch changes by anyone. */
module ReadProtocol {
  import opened Ordering
  import opened Fingerprints
  import opened Evidence
  import opened Authorization
  import opened ReadProjection
  import Registry

  /** How far a read has come. */
  datatype Flight =
    | Evaluated(request: Request, evaluation: Evaluation)
    | Queried(request: Request, evaluation: Evaluation, result: QueryResult)
    | Checked(request: Request, evaluation: Evaluation, result: QueryResult, authorized: bool)
    | Answered(response: Response)

  datatype System = System(rows: Registry.Rows, epoch: int, counters: Counters, flights: map<nat, Flight>)

  datatype Step =
    | Register(principal: Principal)
    | Revoke(ref: string)
    | AdvanceEpoch(newEpoch: int)
    | EvaluateRead(flight: nat, request: Request, presented: Option<string>, now: int, clock: real)
    | QueryRead(flight: nat, result: QueryResult)
    | RevalidateRead(flight: nat, now: int)
    | DiscloseRead(flight: nat)

  predicate CanRevalidate(cfg: Config, s: System, request: Request, b: Binding, now: int) {
    Revalidates(cfg.operation, Registry.ResolveIn(s.rows, Some(b.authenticationRef)), s.epoch, request, b, now)
  }

  /** One atomic step; a step that does not fit changes nothing. */
  function Next(cfg: Config, s: System, step: Step): System {
    match step
    case Register(p) => s.(rows := Registry.Apply(s.rows, Registry.Step.Register(p)))
    case Revoke(ref) => s.(rows := Registry.Apply(s.rows, Registry.Step.Revoke(ref)))
    case AdvanceEpoch(e) => if e >= s.epoch then s.(epoch := e) else s
    case EvaluateRead(f, request, ref, now, clock) =>
      if f in s.flights then s
      else
        var (k, e) := Evaluate(cfg, s.counters, Attempt(request, Registry.ResolveIn(s.rows, ref), s.epoch, now, clock));
        s.(counters := k, flights := s.flights[f := Evaluated(request, e)])
    case QueryRead(f, q) =>
      if f in s.flights && s.flights[f].Evaluated?
      then s.(flights := s.flights[f := Queried(s.flights[f].request, s.flights[f].evaluation, q)]) else s
    case RevalidateRead(f, now) =>
      if f in s.flights && s.flights[f].Queried? then
        var x := s.flights[f];
        var authorized := x.evaluation.Allow? && CanRevalidate(cfg, s, x.request, x.evaluation.binding, now);
        s.(flights := s.flights[f := Checked(x.request, x.evaluation, x.result, authorized)])
      else s
    case DiscloseRead(f) =>
      if f in s.flights && s.flights[f].Checked? then
        var x := s.flights[f];
        s.(flights := s.flights[f := Answered(Disclose(x.result, BindingOf(x.request, x.evaluation), x.authorized))])
      else s
  }

  const START := System(map[], 0, Counters(map[], map[]), map[])

  /** `states[k]` is the system just before `steps[k]`. */
  datatype Run = Run(states: seq<System>, steps: seq<Step>)

  ghost predicate IsRun(cfg: Config, r: Run) {
    && |r.states| == |r.steps| + 1
    && r.states[0] == START
    && forall k :: 0 <= k < |r.steps| ==> IsStep(cfg, r, k)
  }

  ghost predicate IsStep(cfg: Config, r: Run, k: nat)
    requires k < |r.steps| && |r.states| == |r.steps| + 1
  {
    r.states[k + 1] == Next(cfg, r.states[k], r.steps[k])
  }

  // ----- evidence is shown only after a successful revalidation

  /** At step `j` the flight was revalidated with success: its principal was
      registered and unrevoked and its epoch was the current one. */
  ghost predicate RevalidatedAt(cfg: Config, r: Run, f: nat, j: nat, x: Flight)
    requires |r.states| == |r.steps| + 1
  {
    && j < |r.steps| && r.steps[j].RevalidateRead? && r.steps[j].flight == f
    && x.Checked? && x.evaluation.Allow?
    && CanRevalidate(cfg, r.states[j], x.request, x.evaluation.binding, r.steps[j].now)
  }

  /** A flight that one step made Checked was revalidated in that step, and authorized
      exactly if it had been allowed and its binding revalidated. */
  lemma NewlyChecked(cfg: Config, s: System, step: Step, f: nat)
    requires var next := Next(cfg, s, step);
             f in next.flights && next.flights[f].Checked? && !(f in s.flights && s.flights[f] == next.flights[f])
    ensures step.RevalidateRead? && step.flight == f
    ensures var x := Next(cfg, s, step).flights[f];
            x.authorized <==> x.evaluation.Allow? && CanRevalidate(cfg, s, x.request, x.evaluation.binding, step.now)
  {
  }

  /** A checked read was revalidated at an earlier step of its own, and is authorized if
      and only if it had been allowed and its binding revalidated in the state then. */
  lemma CheckedExactly(cfg: Config, r: Run, n: nat, f: nat) returns (j: nat)
    requires IsRun(cfg, r) && n < |r.states| && f in r.states[n].flights && r.states[n].flights[f].Checked?
    ensures j < n && r.steps[j].RevalidateRead? && r.steps[j].flight == f
    ensures r.states[n].flights[f].authorized <==> RevalidatedAt(cfg, r, f, j, r.states[n].flights[f])
  {
    var x := r.states[n].flights[f];
    var k := n;
    while k > 0 && f in r.states[k - 1].flights && r.states[k - 1].flights[f] == x
      invariant 0 < k <= n && f in r.states[k].flights && r.states[k].flights[f] == x
    {
      assert k - 1 != 0;
      k := k - 1;
    }
    j := k - 1;
    assert IsStep(cfg, r, j);
    NewlyChecked(cfg, r.states[j], r.steps[j], f);
  }

  lemma AuthorizedWasRevalidated(cfg: Config, r: Run, n: nat, f: nat) returns (j: nat)
    requires IsRun(cfg, r) && n < |r.states|
    requires f in r.states[n].flights && r.states[n].flights[f].Checked? && r.states[n].flights[f].authorized
    ensures j < n && RevalidatedAt(cfg, r, f, j, r.states[n].flights[f])
  {
    j := CheckedExactly(cfg, r, n, f);
  }

  /** The steps of one read: evaluate decides on the state of that moment, revalidate on
      the state of its own, and disclose shows the evidence found exactly if the read was
      authorized. */
  lemma ReadSteps(cfg: Config, s: System, f: nat, request: Request, ref: Option<string>, now: int, clock: real,
                  q: QueryResult)
    ensures f !in s.flights ==>
              var next := Next(cfg, s, EvaluateRead(f, request, ref, now, clock));
              var a := Attempt(request, Registry.ResolveIn(s.rows, ref), s.epoch, now, clock);
              f in next.flights && next.flights[f] == Evaluated(request, Evaluate(cfg, s.counters, a).1)
              && next.counters == Evaluate(cfg, s.counters, a).0
    ensures f in s.flights && s.flights[f].Evaluated? ==>
              var next := Next(cfg, s, QueryRead(f, q));
              f in next.flights && next.flights[f] == Queried(s.flights[f].request, s.flights[f].evaluation, q)
    ensures f in s.flights && s.flights[f].Queried? ==>
              var next, x := Next(cfg, s, RevalidateRead(f, now)), s.flights[f];
              f in next.flights
              && next.flights[f] == Checked(x.request, x.evaluation, x.result, x.evaluation.Allow?
                                            && CanRevalidate(cfg, s, x.request, x.evaluation.binding, now))
    ensures f in s.flights && s.flights[f].Checked? ==>
              var next, x := Next(cfg, s, DiscloseRead(f)), s.flights[f];
              f in next.flights && next.flights[f].Answered?
              && (next.flights[f].response.evidence != [] <==> x.authorized && x.result.evidence != [])
              && |next.flights[f].response.evidence| == (if x.authorized then |x.result.evidence| else 0)
  {
  }

  /** Safety over every interleaving: if a disclose step shows evidence, then at an
      earlier revalidation step of that same read the reference resolved to a
      registered, unrevoked principal, the binding's epoch was the current one and
      the whole binding was rebuilt unchanged. */
  lemma EvidenceWasRevalidated(cfg: Config, r: Run, i: nat, f: nat) returns (j: nat)
    requires IsRun(cfg, r) && i < |r.steps| && r.steps[i] == DiscloseRead(f)
    requires f in r.states[i].flights && r.states[i].flights[f].Checked?
    requires r.states[i + 1].flights.Keys >= {f} && r.states[i + 1].flights[f].Answered?
    requires r.states[i + 1].flights[f].response.evidence != []
    ensures j < i && RevalidatedAt(cfg, r, f, j, r.states[i].flights[f])
    ensures var b, s := r.states[i].flights[f].evaluation.binding, r.states[j];
            && b.authenticationRef in s.rows && !s.rows[b.authenticationRef].revoked
            && b.policyEpoch == s.epoch
            && Genuine(Registry.ResolveIn(s.rows, Some(b.authenticationRef)).value)
  {
    assert IsStep(cfg, r, i);
    j := AuthorizedWasRevalidated(cfg, r, i, f);
    var b, s := r.states[i].flights[f].evaluation.binding, r.states[j];
    DecodedIsGenuine(s.rows[b.authenticationRef].payload);
  }

  // ----- epochs

  lemma EpochStep(cfg: Config, s: System, step: Step)
    ensures s.epoch <= Next(cfg, s, step).epoch
  {
  }

  lemma EpochsNeverFall(cfg: Config, r: Run, m: nat, n: nat)
    requires IsRun(cfg, r) && m <= n < |r.states|
    ensures r.states[m].epoch <= r.states[n].epoch
  {
    var k := m;
    while k < n
      invariant m <= k <= n && r.states[m].epoch <= r.states[k].epoch
    {
      assert IsStep(cfg, r, k);
      EpochStep(cfg, r.states[k], r.steps[k]);
      k := k + 1;
    }
  }

  /** Once the epoch has passed a binding's epoch, the binding never revalidates
      again, for any request at any time. */
  lemma PassedEpochIsFinal(cfg: Config, r: Run, m: nat, n: nat, request: Request, b: Binding, now: int)
    requires IsRun(cfg, r) && m <= n < |r.states| && b.policyEpoch < r.states[m].epoch
    ensures !CanRevalidate(cfg, r.states[n], request, b, now)
  {
    EpochsNeverFall(cfg, r, m, n);
  }

  // ----- what decides a revalidation during a run

  ghost predicate RowsKeyed(rows: Registry.Rows) {
    forall ref :: ref in rows ==> rows[ref].payload.authenticationRef == ref
  }

  lemma RowsStep(cfg: Config, s: System, step: Step)
    ensures RowsKeyed(s.rows) ==> RowsKeyed(Next(cfg, s, step).rows)
    ensures forall ref :: ref in s.rows ==>
              && ref in Next(cfg, s, step).rows && Next(cfg, s, step).rows[ref].payload == s.rows[ref].payload
              && (s.rows[ref].revoked ==> Next(cfg, s, step).rows[ref].revoked)
  {
  }

  lemma RowsStayKeyed(cfg: Config, r: Run, n: nat)
    requires IsRun(cfg, r) && n < |r.states|
    ensures RowsKeyed(r.states[n].rows)
  {
    var k := 0;
    assert r.states[0].rows == map[];
    while k < n
      invariant k <= n && RowsKeyed(r.states[k].rows)
    {
      assert IsStep(cfg, r, k);
      RowsStep(cfg, r.states[k], r.steps[k]);
      k := k + 1;
    }
  }

  /** A row never changes but for being marked revoked, and stays so. */
  lemma RowsOnlyGetRevoked(cfg: Config, r: Run, m: nat, n: nat, ref: string)
    requires IsRun(cfg, r) && m <= n < |r.states| && ref in r.states[m].rows
    ensures ref in r.states[n].rows
    ensures r.states[n].rows[ref].payload == r.states[m].rows[ref].payload
    ensures r.states[m].rows[ref].revoked ==> r.states[n].rows[ref].revoked
  {
    var k := m;
    while k < n
      invariant m <= k <= n && ref in r.states[k].rows
      invariant r.states[k].rows[ref].payload == r.states[m].rows[ref].payload
      invariant r.states[m].rows[ref].revoked ==> r.states[k].rows[ref].revoked
    {
      assert IsStep(cfg, r, k);
      RowsStep(cfg, r.states[k], r.steps[k]);
      k := k + 1;
    }
  }

  /** From the step that allowed a read on, its binding revalidates exactly while
      its reference has not been revoked, the epoch is still the one it was issued
      under, and the time is between its issue and the earlier end of principal
      and attestation. */
  lemma RevalidationDuringRun(cfg: Config, r: Run, i: nat, n: nat, now: int)
    requires IsRun(cfg, r) && i < |r.steps| && i < n < |r.states| && r.steps[i].EvaluateRead?
    requires r.steps[i].flight !in r.states[i].flights
    requires r.steps[i].flight in r.states[i + 1].flights
    requires var x := r.states[i + 1].flights[r.steps[i].flight]; x.Evaluated? && x.evaluation.Allow?
    ensures Registry.ResolveIn(r.states[i].rows, r.steps[i].presented).Some?
    ensures var x := r.states[i + 1].flights[r.steps[i].flight];
            var b, p := x.evaluation.binding, Registry.ResolveIn(r.states[i].rows, r.steps[i].presented).value;
            && b.authenticationRef in r.states[n].rows
            && (CanRevalidate(cfg, r.states[n], x.request, b, now) <==>
                && !r.states[n].rows[b.authenticationRef].revoked
                && r.states[n].epoch == r.states[i].epoch
                && r.steps[i].now <= now <= p.validUntil && now <= p.attestation.validUntil)
  {
    assert IsStep(cfg, r, i);
    var step, s := r.steps[i], r.states[i];
    var a := Attempt(step.request, Registry.ResolveIn(s.rows, step.presented), s.epoch, step.now, step.clock);
    var b := r.states[i + 1].flights[step.flight].evaluation.binding;
    IssuedBinding(cfg, s.counters, a);
    var p, ref := a.resolved.value, step.presented.value;
    DecodedIsGenuine(s.rows[ref].payload);
    RowsStayKeyed(cfg, r, i);
    assert p.authenticationRef == ref == b.authenticationRef;
    RowsOnlyGetRevoked(cfg, r, i, n, ref);
    RevalidationOfSamePrincipal(cfg.operation, step.request, p, b, r.states[n].epoch, now);
  }
}
