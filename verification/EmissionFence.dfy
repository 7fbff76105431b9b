/** Gate D (`pmiri/gate_d.py`, `pmiri/decisions.py`): the integrated envelope, the
    final emission fence and the enforced transport.

    Each decision record carries the fingerprint of its own fields; as elsewhere a
    fingerprint is represented by what it was taken of.  References and
    fingerprints the fence only compares are strings. */
module EmissionFence {
  import opened Ordering
  import opened Fingerprints
  import Authorization
  import Registry
  import Service
  import Lifecycle
  import ConnectionBinding

  datatype Action = Allow | AllowWithConstraints | Deny | RequireReview | RequireRevalidation | LocalOnly
      | OtherAction(name: string)

  predicate Allows(a: Action) { a == Allow || a == AllowWithConstraints }

  datatype TrustState = TrustedForBoundPurpose | ConditionallyTrusted | Untrusted | UnknownTrust | ExpiredTrust
      | RevokedTrust
                      | ContradictedTrust | InvalidTrust | OtherTrust(name: string)

  datatype CapabilityState = Fresh | StaleCapability | MissingCapability | RevokedCapability | ContradictedCapability
                           | InvalidCapability | OutOfScope | OtherCapability(name: string)

  const OPERATIONS := {"provider_call", "connector_fetch", "attachment_fetch", "external_fetch"}
  const PURPOSES := {"retrieval", "context_delivery", "external_fetch", "attachment_import", "provider_call"}

  // ----- trust and capability decisions

  datatype TrustBody = TrustBody(trustState: TrustState, action: Action, knownReason: bool,
                                 destinationBindingRef: string,
                                 assertionRefs: seq<string>, contentLifecycle: Lifecycle.State,
                                 constraintArtifactRef: Option<string>, redactionProfileRef: Option<string>)

  type TrustDecision = Lifecycle.Sealed<TrustBody>

  /** `validate_trust_decision`. */
  predicate ValidTrust(x: TrustDecision) {
    var t := x.body;
    && t.assertionRefs != [] && Authorization.NonEmpty(t.assertionRefs)
    && x.seal == t
    && !t.trustState.OtherTrust? && t.knownReason && !t.action.OtherAction?
    && t.contentLifecycle == Lifecycle.NotApplicable
    && (t.trustState != TrustedForBoundPurpose && t.trustState != ConditionallyTrusted ==> !Allows(t.action))
    && (t.trustState == ConditionallyTrusted ==> t.action == AllowWithConstraints)
    && (t.action == AllowWithConstraints ==>
        Lifecycle.Present(t.constraintArtifactRef) && Lifecycle.Present(t.redactionProfileRef))
  }

  datatype CapabilityBody = CapabilityBody(capabilityState: CapabilityState, action: Action, knownReason: bool,
                                           reasonIsMissing: bool, observationRefs: seq<string>, invalidationEpoch: int)

  type CapabilityDecision = Lifecycle.Sealed<CapabilityBody>

  /** `validate_capability_decision`. */
  predicate ValidCapability(x: CapabilityDecision) {
    var c := x.body;
    && Authorization.NonEmpty(c.observationRefs)
    && (c.capabilityState != MissingCapability ==> c.observationRefs != [])
    && x.seal == c && c.invalidationEpoch >= 0
    && !c.capabilityState.OtherCapability? && !c.action.OtherAction? && c.knownReason
    && (c.capabilityState != Fresh ==> !Allows(c.action))
    && (c.capabilityState == MissingCapability ==> c.reasonIsMissing)
  }

  // ----- network decisions

  datatype LifecycleSeal = OfRecord(record: Lifecycle.Record) | OfReference(ref: string)

  datatype Fetched = Fetched(lifecycleRef: string, lifecycle: LifecycleSeal, originBindingRef: string,
                             destinationBindingRef: string, admissionState: Lifecycle.State,
                             retrievalVisibility: Lifecycle.Visibility, terminalState: Lifecycle.State,
                             terminalResponseFingerprint: string)

  datatype NetworkBody = NetworkBody(decisionId: string, operation: string, purpose: string,
                                     destinationBindingRef: string,
                                     normalizedTarget: (string, string), connectionRef: string,
                                     connectionFingerprint: string, setStatus: ConnectionBinding.SetStatus,
                                     bindingStatus: ConnectionBinding.BindingStatus,
                                     finalResult: ConnectionBinding.Match,
                                     tls: ConnectionBinding.Match, connectionEpoch: int, invalidationEpoch: int,
                                     action: Action, knownReason: bool,
                                     contentLifecycle: Lifecycle.State, fetched: Option<Fetched>)

  /** The fingerprint may be absent (an empty string), and is then not compared. */
  datatype NetworkDecision = NetworkDecision(body: NetworkBody, fingerprint: Option<NetworkBody>)

  /** `validate_outbound_decision`. */
  predicate ValidOutbound(x: NetworkDecision) {
    var n := x.body;
    && n.operation in OPERATIONS && n.purpose in PURPOSES
    && n.knownReason && !n.action.OtherAction? && !n.contentLifecycle.OtherState?
    && (n.operation == "provider_call" <==> n.contentLifecycle == Lifecycle.NotApplicable)
    && (n.operation == "provider_call" <==> n.fetched.None?)
    && (Allows(n.action) ==>
          && n.tls == ConnectionBinding.Matched && n.setStatus == ConnectionBinding.AllAllowlistedPublic
          && n.bindingStatus == ConnectionBinding.Validated && n.finalResult == ConnectionBinding.Matched)
    && (x.fingerprint.Some? ==> x.fingerprint.value == n)
  }

  /** The identifiers `evaluate_network` derives from the URL and the epoch. */
  datatype NetworkIds = NetworkIds(decisionId: string, destinationBindingRef: string,
                                   normalizedTarget: (string, string),
                                   connectionRef: string, connectionFingerprint: string)

  /** `evaluate_network` for a provider call, the URL already parsed (None where it
      was refused); None where the program raises instead of deciding. */
  function EvaluateProviderNetwork(lib: ConnectionBinding.Addresses, ids: NetworkIds, purpose: string,
                                   target: Option<ConnectionBinding.Target>, o: ConnectionBinding.Observation)
    : Option<NetworkDecision>
  {
    if target.None? then
      Checked(NetworkBody(ids.decisionId, "provider_call", purpose, ids.destinationBindingRef, ids.normalizedTarget,
                          ids.connectionRef, ids.connectionFingerprint,
                          ConnectionBinding.DeniedMixed, ConnectionBinding.Denied, ConnectionBinding.DeniedResult,
                          ConnectionBinding.Mismatched, o.connectionEpoch, o.invalidationEpoch, Deny, true,
                          Lifecycle.NotApplicable, None))
    else
      ProviderDecision(ids, purpose, o, ConnectionBinding.Resolve(lib, o.addresses), ConnectionBinding.Built(lib, o))
  }

  /** The decision from what the two cascades came to. */
  function ProviderDecision(ids: NetworkIds, purpose: string, o: ConnectionBinding.Observation,
                            r: ConnectionBinding.Resolution, built: Option<ConnectionBinding.Record>)
    : Option<NetworkDecision>
  {
    var (action, cascadeStatus, reason) := ConnectionBinding.Cascade(r, o.tls, o.finalResult, o.executionEnabled);
    if o.addresses != [] && (built.None? || built.value.body.events == []) then None
    else
      var status := if o.addresses != [] then built.value.body.bindingStatus else cascadeStatus;
      var final := if o.addresses != [] then built.value.body.events[0].result
                   else if r.setStatus == ConnectionBinding.AllAllowlistedPublic then o.finalResult
                   else ConnectionBinding.DeniedResult;
      Checked(NetworkBody(ids.decisionId, "provider_call", purpose, ids.destinationBindingRef, ids.normalizedTarget,
                          ids.connectionRef, ids.connectionFingerprint, r.setStatus, status, final,
                          if r.setStatus == ConnectionBinding.AllAllowlistedPublic then o.tls
                          else ConnectionBinding.Mismatched,
                          o.connectionEpoch, o.invalidationEpoch,
                          if action == ConnectionBinding.AllowAction then Allow else Deny,
                          reason != ConnectionBinding.DnsUnvalidated, Lifecycle.NotApplicable, None))
  }

  function Checked(n: NetworkBody): Option<NetworkDecision> {
    if ValidOutbound(NetworkDecision(n, Some(n))) then Some(NetworkDecision(n, Some(n))) else None
  }

  /** A mismatched identity expected under the builder's own name for a mismatch;
      `evaluate_network` passes a "destination://" reference, so it never does. */
  predicate ExpectsMismatch(o: ConnectionBinding.Observation) {
    o.tls == ConnectionBinding.Mismatched && ConnectionBinding.DestinationOf(o) == ConnectionBinding.MISMATCH
  }

  /** A legal observation of a parsed URL gets a decision exactly when there is an
      address: with none the program's own reason is outside its vocabulary.  The
      decision allows exactly when the built binding is VALIDATED, and a refused
      URL is always answered with DENY. */
  lemma NetworkDecisionExact(lib: ConnectionBinding.Addresses, ids: NetworkIds, purpose: string,
                             target: Option<ConnectionBinding.Target>, o: ConnectionBinding.Observation)
    requires ConnectionBinding.Lawful(lib) && ConnectionBinding.ArgumentsOk(o) && purpose in PURPOSES
    requires target.Some? ==> target.value == o.target && ConnectionBinding.HostOk(o.target)
    ensures var d := EvaluateProviderNetwork(lib, ids, purpose, target, o);
            && (d.Some? <==> target.None? || (o.addresses != [] && !ExpectsMismatch(o)))
            && (d.Some? && target.None? ==> d.value.body.action == Deny)
            && (d.Some? && target.Some? ==>
                  && ConnectionBinding.Built(lib, o).Some?
                  && d.value.body.bindingStatus == ConnectionBinding.Built(lib, o).value.body.bindingStatus
                  && d.value.body.setStatus == ConnectionBinding.Built(lib, o).value.body.setStatus
                  && (Allows(d.value.body.action) <==> d.value.body.bindingStatus == ConnectionBinding.Validated)
                  && ConnectionBinding.Built(lib, o).value.body.events != []
                  && DecidedFor(ids, purpose, o, ConnectionBinding.Built(lib, o).value, d.value))
  {
    if target.Some? && o.addresses != [] && !ExpectsMismatch(o) {
      AddressedDecision(lib, ids, purpose, o);
    } else if target.Some? {
      ConnectionBinding.BuildExact(lib, o);
    }
  }

  lemma AddressedDecision(lib: ConnectionBinding.Addresses, ids: NetworkIds, purpose: string,
                          o: ConnectionBinding.Observation)
    requires ConnectionBinding.Lawful(lib) && ConnectionBinding.ArgumentsOk(o) && purpose in PURPOSES
    requires ConnectionBinding.HostOk(o.target) && o.addresses != [] && !ExpectsMismatch(o)
    ensures var d, b := EvaluateProviderNetwork(lib, ids, purpose, Some(o.target), o), ConnectionBinding.Built(lib, o);
            && d.Some? && b.Some?
            && d.value.body.bindingStatus == b.value.body.bindingStatus
            && d.value.body.setStatus == b.value.body.setStatus
            && (Allows(d.value.body.action) <==> d.value.body.bindingStatus == ConnectionBinding.Validated)
            && b.value.body.events != [] && DecidedFor(ids, purpose, o, b.value, d.value)
  {
    ConnectionBinding.BuildExact(lib, o);
    ConnectionBinding.CascadesAgree(lib, o);
    ConnectionBinding.ValidatedMeans(lib, o);
    DecisionOfAgreement(ids, purpose, o, ConnectionBinding.Resolve(lib, o.addresses),
                        ConnectionBinding.Built(lib, o).value);
  }

  lemma DecisionOfAgreement(ids: NetworkIds, purpose: string, o: ConnectionBinding.Observation,
                            r: ConnectionBinding.Resolution, built: ConnectionBinding.Record)
    requires purpose in PURPOSES && o.addresses != [] && built.body.events != []
    requires var (action, status, reason) := ConnectionBinding.Cascade(r, o.tls, o.finalResult, o.executionEnabled);
             && built.body.setStatus == r.setStatus && reason != ConnectionBinding.DnsUnvalidated
             && (action == ConnectionBinding.AllowAction <==> built.body.bindingStatus == ConnectionBinding.Validated)
    requires built.body.bindingStatus == ConnectionBinding.Validated ==>
               && built.body.setStatus == ConnectionBinding.AllAllowlistedPublic && o.tls == ConnectionBinding.Matched
               && built.body.events[0].result == ConnectionBinding.Matched
    ensures var d := ProviderDecision(ids, purpose, o, r, Some(built));
            && d.Some? && d.value.body.bindingStatus == built.body.bindingStatus
            && d.value.body.setStatus == built.body.setStatus
            && (Allows(d.value.body.action) <==> d.value.body.bindingStatus == ConnectionBinding.Validated)
            && DecidedFor(ids, purpose, o, built, d.value)
  {
  }

  /** The rest of a decision: what it is for, and the observations as the binding has
      them, the identity counting as mismatched unless every address is public. */
  predicate DecidedFor(ids: NetworkIds, purpose: string, o: ConnectionBinding.Observation,
                       built: ConnectionBinding.Record, d: NetworkDecision)
    requires built.body.events != []
  {
    var n := d.body;
    && n.operation == "provider_call" && n.purpose == purpose && n.decisionId == ids.decisionId
    && n.destinationBindingRef == ids.destinationBindingRef && n.normalizedTarget == ids.normalizedTarget
    && n.connectionRef == ids.connectionRef && n.connectionFingerprint == ids.connectionFingerprint
    && n.connectionEpoch == o.connectionEpoch && n.invalidationEpoch == o.invalidationEpoch
    && n.finalResult == built.body.events[0].result
    && n.tls == (if n.setStatus == ConnectionBinding.AllAllowlistedPublic then o.tls else ConnectionBinding.Mismatched)
    && n.action in [Allow, Deny] && d.fingerprint == Some(n)
  }

  // ----- the integrated envelope

  datatype EmissionMode = External | LocalOnlyMode | OtherMode(name: string)

  datatype EnvelopeBody = EnvelopeBody(
    operation: string, purpose: string, action: Action, knownReason: bool, trustState: TrustState,
    capabilityState: CapabilityState, mode: EmissionMode, invalidationEpoch: int, policyVersion: string,
    authorization: Option<(Digest, Ref)>, subjectChain: Option<Digest>, purposeFingerprint: Option<Digest>,
    destinationBindingRef: string, networkBindingFingerprint: Option<string>, outboundDecisionRef: Option<string>,
    outboundDecisionFingerprint: Option<NetworkBody>, fetched: Option<Fetched>)

  type Envelope = Lifecycle.Sealed<EnvelopeBody>

  /** The engine as a decision sees it; `invalidate` moves the epoch. */
  datatype Engine = Engine(invalidationEpoch: int, now: int, policyVersion: string)

  /** The request mapping: the query it describes if it does, and its own words on
      operation, purpose and destination. */
  datatype EnvelopeRequest = EnvelopeRequest(query: Option<Request>, operation: string, purpose: string,
                                             destination: Option<string>)

  datatype Evidence = Evidence(trust: TrustDecision, capability: CapabilityDecision, network: Option<NetworkDecision>,
                               binding: Option<Authorization.Binding>)

  function NetworkAction(n: Option<NetworkDecision>): Action {
    if n.Some? then n.value.body.action else OtherAction("")
  }

  /** The action before the authorization binding is looked at. */
  function BaseAction(mode: EmissionMode, v: Evidence): Action {
    if !Allows(v.trust.body.action) then Deny
    else if !Allows(v.capability.body.action) then v.capability.body.action
    else if mode == External && !Allows(NetworkAction(v.network)) then Deny
    else if mode == LocalOnlyMode then LocalOnly
    else if NetworkAction(v.network) == AllowWithConstraints || v.trust.body.action == AllowWithConstraints
    then AllowWithConstraints
    else Allow
  }

  /** The checks on the binding for an allowed external emission. */
  predicate BindingAdmits(e: Engine, r: EnvelopeRequest, binding: Option<Authorization.Binding>) {
    && binding.Some?
    && var b := binding.value;
    && b.IsValid(e.now, e.invalidationEpoch)
    && b.operation == r.operation && b.purpose == r.purpose
    && b.policyVersion == e.policyVersion
    && r.query.Some? && b.IntegrityValid(r.query.value)
  }

  function EnvelopeAction(e: Engine, r: EnvelopeRequest, mode: EmissionMode, v: Evidence): Action {
    var base := BaseAction(mode, v);
    if mode == External && Allows(base) && !BindingAdmits(e, r, v.binding) then Deny else base
  }

  function EnvelopeFields(e: Engine, r: EnvelopeRequest, mode: EmissionMode, v: Evidence): EnvelopeBody {
    var b := v.binding;
    EnvelopeBody(if b.Some? then b.value.operation else r.operation, if b.Some? then b.value.purpose else r.purpose,
                 EnvelopeAction(e, r, mode, v), true, v.trust.body.trustState, v.capability.body.capabilityState, mode,
                 if b.Some? then b.value.policyEpoch else e.invalidationEpoch,
                 if b.Some? then b.value.policyVersion else e.policyVersion,
                 if b.Some? then Some((b.value.fingerprint, b.value.bindingId)) else None,
                 if b.Some? then Some(b.value.subjectChainFingerprint) else None,
                 if b.Some? then Some(b.value.purposeBindingFingerprint) else None,
                 if r.destination.Some? then r.destination.value
                 else if v.network.Some? then v.network.value.body.destinationBindingRef
                 else v.trust.body.destinationBindingRef,
                 if v.network.Some? then Some(v.network.value.body.connectionFingerprint) else None,
                 if v.network.Some? then Some(v.network.value.body.decisionId) else None,
                 if v.network.Some? then v.network.value.fingerprint else None,
                 if v.network.Some? then v.network.value.body.fetched else None)
  }

  /** `validate_integrated_envelope`. */
  predicate ValidEnvelope(x: EnvelopeBody) {
    && x.operation in OPERATIONS && x.purpose in PURPOSES && !x.action.OtherAction? && x.knownReason
    && (x.operation == "provider_call" ==> x.fetched.None? || x.fetched.value.lifecycleRef == "")
  }

  /** `build_integrated_envelope`; None where a validator raises. */
  function BuildEnvelope(e: Engine, r: EnvelopeRequest, mode: EmissionMode, v: Evidence): Option<Envelope> {
    var x := EnvelopeFields(e, r, mode, v);
    if ValidTrust(v.trust) && ValidCapability(v.capability) && ValidEnvelope(x) then Some(Lifecycle.Sealed(x, x))
    else None
  }

  // ----- the fence

  /** What a caller presents with an envelope. */
  datatype Presented = Presented(trust: TrustDecision, capability: CapabilityDecision, network: Option<NetworkDecision>,
                                 lifecycle: Option<Lifecycle.Sealed<Lifecycle.Record>>,
                                 binding: Option<Authorization.Binding>, query: Option<Request>)

  /** The authorization service the fence asks: its operation, registry and epoch. */
  datatype Authority = Authority(operation: string, rows: Registry.Rows, epoch: int)

  predicate Revalidates(s: Authority, query: Request, b: Authorization.Binding, now: int) {
    Authorization.Revalidates(s.operation, Registry.ResolveIn(s.rows, Some(b.authenticationRef)), s.epoch, query, b,
                              now)
  }

  function OperationName(o: Lifecycle.Operation): string {
    match o
    case ProviderCall => "provider_call"
    case ConnectorFetch => "connector_fetch"
    case AttachmentFetch => "attachment_fetch"
    case ExternalFetch => "external_fetch"
    case OtherOperation(name) => name
  }

  function PurposeName(p: Lifecycle.Purpose): string {
    match p
    case Retrieval => "retrieval"
    case ContextDelivery => "context_delivery"
    case ExternalFetchPurpose => "external_fetch"
    case AttachmentImport => "attachment_import"
    case ProviderCallPurpose => "provider_call"
    case OtherPurpose(name) => name
  }

  /** The fetched-content fields are a projection of the presented lifecycle. */
  predicate ProjectsLifecycle(f: Option<Fetched>, l: Lifecycle.Sealed<Lifecycle.Record>) {
    && f.Some?
    && f.value.lifecycle == OfRecord(l.seal)
    && f.value.originBindingRef == l.body.originBindingRef
    && f.value.destinationBindingRef == l.body.destinationBindingRef
    && f.value.admissionState == l.body.admissionState && f.value.retrievalVisibility == l.body.retrievalVisibility
    && f.value.terminalState == l.body.historyTerminalState
    && f.value.terminalResponseFingerprint == l.body.terminalResponseFingerprint
  }

  /** `validate_external_emission`. */
  predicate ValidExternalEmission(x: EnvelopeBody, n: NetworkDecision,
                                  lifecycle: Option<Lifecycle.Sealed<Lifecycle.Record>>) {
    && ValidEnvelope(x) && ValidOutbound(n)
    && (Allows(x.action) ==> Allows(n.body.action))
    && x.operation == n.body.operation && x.purpose == n.body.purpose && x.action == n.body.action
    && (x.operation != "provider_call" ==>
          && lifecycle.Some? && Lifecycle.Accepted(lifecycle.value)
          && OperationName(lifecycle.value.body.operation) == x.operation
          && PurposeName(lifecycle.value.body.purpose) == x.purpose
          && ProjectsLifecycle(n.body.fetched, lifecycle.value) && ProjectsLifecycle(x.fetched, lifecycle.value)
          && n.body.fetched.value.lifecycleRef == x.fetched.value.lifecycleRef)
  }

  /** The envelope is the one its binding was made for. */
  predicate BoundTo(x: EnvelopeBody, b: Authorization.Binding) {
    && x.authorization == Some((b.fingerprint, b.bindingId))
    && x.subjectChain == Some(b.subjectChainFingerprint) && x.purposeFingerprint == Some(b.purposeBindingFingerprint)
    && x.operation == b.operation && x.purpose == b.purpose && x.policyVersion == b.policyVersion
    && x.invalidationEpoch == b.policyEpoch
  }

  /** What the fence asks of envelope and decisions, whatever the time and epochs. */
  predicate Coherent(policyVersion: string, env: Envelope, p: Presented) {
    var x := env.body;
    && ValidEnvelope(x) && ValidTrust(p.trust) && ValidCapability(p.capability)
    && env.seal == x
    && x.trustState == p.trust.body.trustState && x.capabilityState == p.capability.body.capabilityState
    && x.mode == External && Allows(x.action)
    && p.binding.Some? && p.binding.value.policyVersion == policyVersion
    && p.query.Some? && p.binding.value.IntegrityValid(p.query.value)
    && BoundTo(x, p.binding.value)
    && p.network.Some?
    && var n := p.network.value;
    && x.networkBindingFingerprint == Some(n.body.connectionFingerprint)
    && x.outboundDecisionRef == Some(n.body.decisionId) && x.outboundDecisionFingerprint == n.fingerprint
    && x.destinationBindingRef == n.body.destinationBindingRef
    && ValidExternalEmission(x, n, p.lifecycle)
  }

  /** `authorize_emission`: true where it returns, false where it raises, as it does
      when no authorization service is passed in. */
  predicate Authorizes(e: Engine, s: Option<Authority>, env: Envelope, p: Presented) {
    && Coherent(e.policyVersion, env, p)
    && env.body.invalidationEpoch == e.invalidationEpoch
    && p.binding.value.IsValid(e.now, e.invalidationEpoch)
    && s.Some? && Revalidates(s.value, p.query.value, p.binding.value, e.now)
  }

  /** Whatever envelope is presented, acceptance means: its reference resolves at
      this moment to an unrevoked, genuine principal that grants the request and
      rebuilds the very binding, under exactly the requested authority; and engine,
      service, envelope and binding are at one epoch. */
  lemma AcceptanceAlwaysMeans(e: Engine, s: Authority, env: Envelope, p: Presented)
    requires Authorizes(e, Some(s), env, p)
    ensures var b, q := p.binding.value, p.query.value;
            && b.authenticationRef in s.rows && !s.rows[b.authenticationRef].revoked
            && var who := Registry.ResolveIn(s.rows, Some(b.authenticationRef));
            && who.Some? && Authorization.Genuine(who.value) && Authorization.Grants(s.operation, q, who.value)
            && Authorization.BuildBinding(s.operation, q, who.value, b.issuedAt) == Ok(b)
            && Authorization.SubjectDocument(s.operation, q, who.value).effectiveAuthority ==
               Authorization.Singletons(s.operation, q)
            && env.body.operation == s.operation && env.body.purpose == q.purpose
            && env.body.invalidationEpoch == e.invalidationEpoch == s.epoch == b.policyEpoch
  {
    CurrentPrincipal(s, p.query.value, p.binding.value, e.now);
  }

  lemma CurrentPrincipal(s: Authority, q: Request, b: Authorization.Binding, now: int)
    requires Revalidates(s, q, b, now)
    ensures b.authenticationRef in s.rows && !s.rows[b.authenticationRef].revoked
    ensures var who := Registry.ResolveIn(s.rows, Some(b.authenticationRef));
            && who.Some? && Authorization.Genuine(who.value) && Authorization.Grants(s.operation, q, who.value)
            && Authorization.BuildBinding(s.operation, q, who.value, b.issuedAt) == Ok(b)
            && Authorization.SubjectDocument(s.operation, q, who.value).effectiveAuthority ==
               Authorization.Singletons(s.operation, q)
    ensures b.operation == s.operation && b.purpose == q.purpose && b.policyEpoch == s.epoch
  {
    Authorization.DecodedIsGenuine(s.rows[b.authenticationRef].payload);
    Authorization.EffectiveAuthority(s.operation, q, Registry.ResolveIn(s.rows, Some(b.authenticationRef)).value);
  }

  /** And the network decision allows on an all-public, validated binding. */
  lemma AcceptedNetworkAllows(e: Engine, s: Option<Authority>, env: Envelope, p: Presented)
    requires Authorizes(e, s, env, p)
    ensures var n := p.network.value.body;
            && env.body.action == n.action && Allows(n.action)
            && n.tls == ConnectionBinding.Matched && n.setStatus == ConnectionBinding.AllAllowlistedPublic
            && n.bindingStatus == ConnectionBinding.Validated && n.finalResult == ConnectionBinding.Matched
  {
  }

  /** Acceptance ties the envelope to everything presented with it: the very network
      decision, its destination and connection, the very binding, the states of the
      two other decisions; and the envelope is sealed, external and allowing. */
  lemma AcceptedEnvelopeIsTied(e: Engine, s: Option<Authority>, env: Envelope, p: Presented)
    requires Authorizes(e, s, env, p)
    ensures var x, n := env.body, p.network.value;
            && x.destinationBindingRef == n.body.destinationBindingRef
            && x.outboundDecisionRef == Some(n.body.decisionId) && x.outboundDecisionFingerprint == n.fingerprint
            && x.networkBindingFingerprint == Some(n.body.connectionFingerprint)
            && x.operation == n.body.operation && x.purpose == n.body.purpose && x.action == n.body.action
            && (n.fingerprint.Some? ==> n.fingerprint.value == n.body)
    ensures var x, b := env.body, p.binding.value;
            && x.authorization == Some((b.fingerprint, b.bindingId))
               && x.subjectChain == Some(b.subjectChainFingerprint)
            && x.purposeFingerprint == Some(b.purposeBindingFingerprint)
            && x.operation == b.operation && x.purpose == b.purpose
            && x.policyVersion == b.policyVersion == e.policyVersion
    ensures env.seal == env.body && env.body.mode == External && Allows(env.body.action) && s.Some?
    ensures env.body.trustState == p.trust.body.trustState
            && env.body.capabilityState == p.capability.body.capabilityState
    ensures p.trust.seal == p.trust.body && p.capability.seal == p.capability.body
    ensures env.body.operation != "provider_call" ==>
              && p.lifecycle.Some? && Lifecycle.Accepted(p.lifecycle.value)
              && var l, f := p.lifecycle.value, env.body.fetched;
              && f.Some? && f == p.network.value.body.fetched && f.value.lifecycle == OfRecord(l.body)
              && f.value.originBindingRef == l.body.originBindingRef
              && f.value.destinationBindingRef == l.body.destinationBindingRef
              && f.value.admissionState == l.body.admissionState == f.value.terminalState
              && f.value.retrievalVisibility == l.body.retrievalVisibility
              && f.value.terminalResponseFingerprint == l.body.terminalResponseFingerprint
              && OperationName(l.body.operation) == env.body.operation
                 && PurposeName(l.body.purpose) == env.body.purpose
  {
  }

  /** An envelope asked for one destination is refused with a decision for another. */
  lemma OtherDestinationIsRefused(built: Engine, r: EnvelopeRequest, mode: EmissionMode, v: Evidence, e: Engine,
                                  s: Option<Authority>, env: Envelope, p: Presented)
    requires BuildEnvelope(built, r, mode, v) == Some(env)
    requires r.destination.Some? && p.network.Some? && r.destination.value != p.network.value.body.destinationBindingRef
    ensures !Authorizes(e, s, env, p)
  {
  }

  /** When the engine's own envelope passes its own fence: built for a provider call and
      presented at once with what it was built from, it is accepted exactly when trust,
      capability and network decisions allow, constraints on the trust side are also on
      the network side, the binding is the request's own, current and in force, the
      request names no other destination, and the service revalidates. */
  lemma FreshEnvelopeExact(e: Engine, r: EnvelopeRequest, v: Evidence, s: Option<Authority>, env: Envelope)
    requires BuildEnvelope(e, r, External, v) == Some(env) && r.operation == "provider_call"
    ensures Authorizes(e, s, env, Presented(v.trust, v.capability, v.network, None, v.binding, r.query)) <==>
            && Allows(v.trust.body.action) && Allows(v.capability.body.action)
            && v.binding.Some? && r.query.Some? && v.network.Some? && s.Some?
            && var b, q, n := v.binding.value, r.query.value, v.network.value;
            && b.policyEpoch == e.invalidationEpoch && b.issuedAt <= e.now <= b.validUntil
            && b.policyVersion == e.policyVersion && b.operation == r.operation && b.purpose == r.purpose
            && b.IntegrityValid(q)
            && ValidOutbound(n) && Allows(n.body.action)
            && n.body.operation == r.operation && n.body.purpose == r.purpose
            && (v.trust.body.action == AllowWithConstraints ==> n.body.action == AllowWithConstraints)
            && (r.destination.Some? ==> r.destination.value == n.body.destinationBindingRef)
            && Revalidates(s.value, q, b, e.now)
  {
  }

  /** The action an envelope carries, case by case. */
  lemma ActionTable(e: Engine, r: EnvelopeRequest, mode: EmissionMode, v: Evidence)
    ensures var trust, cap := v.trust.body.action, v.capability.body.action;
            var net := if v.network.Some? then v.network.value.body.action else OtherAction("");
            var constrained := net == AllowWithConstraints || trust == AllowWithConstraints;
            EnvelopeFields(e, r, mode, v).action ==
            if trust != Allow && trust != AllowWithConstraints then Deny
            else if cap != Allow && cap != AllowWithConstraints then cap
            else if mode == LocalOnlyMode then LocalOnly
            else if mode != External then if constrained then AllowWithConstraints else Allow
            else if net != Allow && net != AllowWithConstraints then Deny
            else if !(v.binding.Some? && r.query.Some?
                      && var b := v.binding.value;
                      && b.policyEpoch == e.invalidationEpoch && b.issuedAt <= e.now <= b.validUntil
                      && b.operation == r.operation && b.purpose == r.purpose && b.policyVersion == e.policyVersion
                      && b.IntegrityValid(r.query.value)) then Deny
            else if constrained then AllowWithConstraints else Allow
  {
  }

  // ----- what the three validators let through

  /** Trust: only the two trusting states may allow, the conditional one only under
      constraints, and constraints name their artifact and redaction profile. */
  lemma TrustTable(x: TrustDecision)
    ensures ValidTrust(x) <==>
            && x.seal == x.body && x.body.assertionRefs != [] && "" !in x.body.assertionRefs
            && x.body.knownReason && x.body.contentLifecycle == Lifecycle.NotApplicable
            && match (x.body.trustState, x.body.action)
               case (OtherTrust(_), _) => false
               case (_, OtherAction(_)) => false
               case (TrustedForBoundPurpose, AllowWithConstraints) => Constrained(x.body)
               case (TrustedForBoundPurpose, _) => true
               case (ConditionallyTrusted, AllowWithConstraints) => Constrained(x.body)
               case (ConditionallyTrusted, _) => false
               case (_, Allow) => false
               case (_, AllowWithConstraints) => false
               case (_, _) => true
  {
  }

  predicate Constrained(t: TrustBody) {
    && t.constraintArtifactRef.Some? && t.constraintArtifactRef.value != ""
    && t.redactionProfileRef.Some? && t.redactionProfileRef.value != ""
  }

  /** Capability: only FRESH may allow; only a MISSING one may come without observations,
      and it says so. */
  lemma CapabilityTable(x: CapabilityDecision)
    ensures ValidCapability(x) <==>
            && x.seal == x.body && "" !in x.body.observationRefs && x.body.invalidationEpoch >= 0 && x.body.knownReason
            && match (x.body.capabilityState, x.body.action)
               case (OtherCapability(_), _) => false
               case (_, OtherAction(_)) => false
               case (Fresh, _) => x.body.observationRefs != []
               case (_, Allow) => false
               case (_, AllowWithConstraints) => false
               case (MissingCapability, _) => x.body.reasonIsMissing
               case (_, _) => x.body.observationRefs != []
  {
  }

  /** Network: provider calls carry no content lifecycle, the three fetches do, and an
      allowing decision stands on an all-public, validated, matching connection. */
  lemma OutboundTable(x: NetworkDecision)
    ensures ValidOutbound(x) <==>
            && x.body.knownReason && (x.fingerprint == None || x.fingerprint == Some(x.body))
            && x.body.purpose in ["retrieval", "context_delivery", "external_fetch", "attachment_import",
                                  "provider_call"]
            && (if x.body.operation == "provider_call" then
                  x.body.contentLifecycle == Lifecycle.NotApplicable && x.body.fetched == None
                else
                  && x.body.operation in ["connector_fetch", "attachment_fetch", "external_fetch"]
                  && x.body.contentLifecycle in [Lifecycle.Quarantined, Lifecycle.AdmittedTypedData, Lifecycle.Rejected,
                                                 Lifecycle.Discarded, Lifecycle.Aborted]
                  && x.body.fetched != None)
            && match x.body.action
               case OtherAction(_) => false
               case Allow => OnValidated(x.body)
               case AllowWithConstraints => OnValidated(x.body)
               case _ => true
  {
  }

  predicate OnValidated(n: NetworkBody) {
    && n.tls == ConnectionBinding.Matched && n.setStatus == ConnectionBinding.AllAllowlistedPublic
    && n.bindingStatus == ConnectionBinding.Validated && n.finalResult == ConnectionBinding.Matched
  }

  /** For an envelope the engine built, acceptance at any later time also means
      that the decisions it was built from allowed: a trusting state, FRESH
      capability, a binding for the same request, all under the epoch that is still
      current; and a network decision sealed as the engine seals them is the one
      presented. */
  lemma AcceptedEngineEnvelope(built: Engine, r: EnvelopeRequest, mode: EmissionMode, v: Evidence, e: Engine,
                               s: Option<Authority>, env: Envelope, p: Presented)
    requires BuildEnvelope(built, r, mode, v) == Some(env) && Authorizes(e, s, env, p)
    ensures v.trust.body.trustState in {TrustedForBoundPurpose, ConditionallyTrusted} && Allows(v.trust.body.action)
    ensures v.capability.body.capabilityState == Fresh && Allows(v.capability.body.action)
    ensures p.trust.body.trustState == v.trust.body.trustState && p.capability.body.capabilityState == Fresh
    ensures built.invalidationEpoch == e.invalidationEpoch && built.policyVersion == e.policyVersion
    ensures v.network.Some? && Allows(v.network.value.body.action)
    ensures v.network.value.fingerprint.Some? && ValidOutbound(v.network.value) ==> p.network.value == v.network.value
    ensures BindingAdmits(built, r, v.binding) && r.query == p.query
    ensures v.binding.value.fingerprint == p.binding.value.fingerprint
    ensures r.destination.Some? ==> r.destination.value == p.network.value.body.destinationBindingRef
  {
  }

  // ----- runs of the engine and the authorization service

  datatype World = World(engine: Engine, authority: Authority)

  datatype Step =
    | Invalidate
    | AdvanceEpoch(newEpoch: int)
    | Tick(now: int)
    | Register(principal: Authorization.Principal)
    | Revoke(ref: string)
    | AdvanceServiceEpoch(newEpoch: int)

  function WithRows(w: World, rows: Registry.Rows): World { w.(authority := w.authority.(rows := rows)) }

  function Next(w: World, s: Step): World {
    match s
    case Invalidate => w.(engine := w.engine.(invalidationEpoch := w.engine.invalidationEpoch + 1))
    case AdvanceEpoch(n) =>
      if n >= w.engine.invalidationEpoch then w.(engine := w.engine.(invalidationEpoch := n)) else w
    case Tick(now) => w.(engine := w.engine.(now := now))
    case Register(p) => WithRows(w, Registry.Apply(w.authority.rows, Registry.Step.Register(p)))
    case Revoke(ref) => WithRows(w, Registry.Apply(w.authority.rows, Registry.Step.Revoke(ref)))
    case AdvanceServiceEpoch(n) =>
      if n >= w.authority.epoch then w.(authority := w.authority.(epoch := n)) else w
  }

  function After(w: World, steps: seq<Step>): World
    decreases |steps|
  {
    if steps == [] then w else After(Next(w, steps[0]), steps[1..])
  }

  predicate Accepts(w: World, env: Envelope, p: Presented) { Authorizes(w.engine, Some(w.authority), env, p) }

  lemma {:induction false} EpochsNeverFall(w: World, steps: seq<Step>)
    ensures After(w, steps).engine.invalidationEpoch >= w.engine.invalidationEpoch
    ensures Invalidate in steps ==> After(w, steps).engine.invalidationEpoch > w.engine.invalidationEpoch
    ensures After(w, steps).authority.epoch >= w.authority.epoch
    ensures After(w, steps).engine.policyVersion == w.engine.policyVersion
    ensures After(w, steps).authority.operation == w.authority.operation
    decreases |steps|
  {
    if steps != [] {
      EpochsNeverFall(Next(w, steps[0]), steps[1..]);
      assert steps == [steps[0]] + steps[1..];
    }
  }

  /** A registered row stays as it is, but for being revoked, exactly when a step
      revokes it. */
  lemma {:induction false} RowsOnlyGetRevoked(w: World, steps: seq<Step>, ref: string)
    requires ref in w.authority.rows
    ensures ref in After(w, steps).authority.rows
    ensures var row := w.authority.rows[ref];
            After(w, steps).authority.rows[ref] == row.(revoked := row.revoked || Revoke(ref) in steps)
    decreases |steps|
  {
    if steps != [] {
      RowStep(w, steps[0], ref);
      RowsOnlyGetRevoked(Next(w, steps[0]), steps[1..], ref);
      assert steps == [steps[0]] + steps[1..];
    }
  }

  lemma RowStep(w: World, s: Step, ref: string)
    requires ref in w.authority.rows
    ensures ref in Next(w, s).authority.rows
    ensures var row := w.authority.rows[ref];
            Next(w, s).authority.rows[ref] == row.(revoked := row.revoked || s == Revoke(ref))
  {
    if s.Register? { Registry.ApplyKeeps(w.authority.rows, Registry.Step.Register(s.principal), ref); }
    if s.Revoke? { Registry.ApplyKeeps(w.authority.rows, Registry.Step.Revoke(s.ref), ref); }
  }

  /** An envelope built before an invalidation is never accepted after it, whatever
      is presented with it and whatever else happens. */
  lemma InvalidationIsFinal(w: World, r: EnvelopeRequest, mode: EmissionMode, v: Evidence, env: Envelope,
                            steps: seq<Step>,
                            p: Presented)
    requires BuildEnvelope(w.engine, r, mode, v) == Some(env) && Invalidate in steps
    ensures !Accepts(After(w, steps), env, p)
  {
    EpochsNeverFall(w, steps);
    var later := After(w, steps);
    if Accepts(later, env, p) {
      AcceptedEngineEnvelope(w.engine, r, mode, v, later.engine, Some(later.authority), env, p);
    }
  }

  /** The envelope's authorization fingerprint was taken of a binding of `ref`. */
  predicate AuthorizedUnder(env: Envelope, ref: string) {
    && env.body.authorization.Some?
    && var doc := env.body.authorization.value.0.doc;
    && doc.BindingDoc? && doc.authenticationRef == ref
  }

  lemma AcceptedUnderItsReference(e: Engine, s: Authority, env: Envelope, p: Presented)
    requires Authorizes(e, Some(s), env, p)
    ensures AuthorizedUnder(env, p.binding.value.authenticationRef)
    ensures Registry.ResolveIn(s.rows, Some(p.binding.value.authenticationRef)).Some?
  {
  }

  /** After a registered reference is revoked, no envelope whose authorization is of
      that reference is accepted, however it was made, whatever is presented with it
      and whatever else happens. */
  lemma RevocationIsFinal(w: World, ref: string, env: Envelope, steps: seq<Step>, p: Presented)
    requires ref in w.authority.rows && Revoke(ref) in steps && AuthorizedUnder(env, ref)
    ensures !Accepts(After(w, steps), env, p)
  {
    RowsOnlyGetRevoked(w, steps, ref);
    var later := After(w, steps);
    if Accepts(later, env, p) {
      AcceptedUnderItsReference(later.engine, later.authority, env, p);
    }
  }

  /** An accepted emission presented again after any steps is accepted if and only
      if no step revoked its reference, both epochs are unchanged, and the time lies
      in the binding's, the principal's and the attestation's intervals. */
  lemma AcceptanceDuringRun(w: World, env: Envelope, p: Presented, steps: seq<Step>)
    requires Accepts(w, env, p)
    ensures var b, later := p.binding.value, After(w, steps);
            var who := Registry.ResolveIn(w.authority.rows, Some(b.authenticationRef));
            && who.Some?
            && (Accepts(later, env, p) <==>
                && Revoke(b.authenticationRef) !in steps
                && later.engine.invalidationEpoch == w.engine.invalidationEpoch
                && later.authority.epoch == w.authority.epoch
                && Authorization.Within(b.issuedAt, b.validUntil, later.engine.now)
                && Authorization.Within(who.value.issuedAt, who.value.validUntil, later.engine.now)
                && Authorization.Within(who.value.attestation.issuedAt, who.value.attestation.validUntil,
                                        later.engine.now))
  {
    var b := p.binding.value;
    EpochsNeverFall(w, steps);
    RowsOnlyGetRevoked(w, steps, b.authenticationRef);
  }

  // ----- an emission that is accepted

  lemma SampleBinding(who: Authorization.Principal) returns (b: Authorization.Binding)
    requires Service.IsSample(who) && Authorization.Genuine(who)
    ensures var q := Service.SampleRequest("r1");
            && Authorization.BuildBinding("provider_call", q, who, 50) == Ok(b) && b.issuedAt == 50
            && Authorization.Issued("provider_call", q, who, b)
            && b.IntegrityValid(q) && b.IsValid(50, 0) && b.operation == "provider_call" && b.purpose == "provider_call"
            && b.policyVersion == who.policyVersion && b.policyEpoch == 0
               && b.authenticationRef == who.authenticationRef
  {
    Service.SampleAsks(who, "r1", 50, 0);
    b := Authorization.BuildBinding("provider_call", Service.SampleRequest("r1"), who, 50).value;
  }

  function SampleNetwork(): NetworkDecision {
    var n :=
      NetworkBody("decision", "provider_call", "provider_call", "destination", ("example.com", "/"), "connection",
                         "fingerprint", ConnectionBinding.AllAllowlistedPublic, ConnectionBinding.Validated,
                         ConnectionBinding.Matched, ConnectionBinding.Matched, 0, 0, Allow, true,
                         Lifecycle.NotApplicable,
                         None);
    NetworkDecision(n, Some(n))
  }

  function SampleEvidence(b: Authorization.Binding): Evidence {
    var trust :=
      TrustBody(TrustedForBoundPurpose, Allow, true, "destination", ["assertion"], Lifecycle.NotApplicable, None,
                           None);
    var capability := CapabilityBody(Fresh, Allow, true, false, ["observation"], 0);
    Evidence(Lifecycle.Sealed(trust, trust), Lifecycle.Sealed(capability, capability), Some(SampleNetwork()), Some(b))
  }

  lemma SampleEnvelope(e: Engine, q: Request, b: Authorization.Binding)
    requires e == Engine(0, 50, b.policyVersion) && b.IsValid(50, 0) && b.IntegrityValid(q)
    requires b.operation == "provider_call" && b.purpose == "provider_call"
    ensures var r, v := EnvelopeRequest(Some(q), "provider_call", "provider_call", None), SampleEvidence(b);
            var env := BuildEnvelope(e, r, External, v);
            && env.Some?
            && Coherent(e.policyVersion, env.value, Presented(v.trust, v.capability, v.network, None, Some(b), Some(q)))
            && env.value.body.invalidationEpoch == 0
  {
    assert Authorization.NonEmpty(["assertion"]) && Authorization.NonEmpty(["observation"]);
  }

  /** The same emission asked for another destination is built, and refused. */
  lemma RedirectedEmissionIsRefused(s: Option<Authority>, q: Request, b: Authorization.Binding)
    requires b.IsValid(50, 0) && b.IntegrityValid(q) && b.operation == "provider_call" && b.purpose == "provider_call"
    ensures var e := Engine(0, 50, b.policyVersion);
            var r := EnvelopeRequest(Some(q), "provider_call", "provider_call", Some("binding://other"));
            var v := SampleEvidence(b);
            var env := BuildEnvelope(e, r, External, v);
            && env.Some? && env.value.body.action == Allow
            && !Authorizes(e, s, env.value, Presented(v.trust, v.capability, v.network, None, Some(b), Some(q)))
  {
    assert Authorization.NonEmpty(["assertion"]) && Authorization.NonEmpty(["observation"]);
    assert "binding://other"[0] != "destination"[0];
  }

  /** The fence is not closed for good: an envelope the engine builds for a
      registered principal's request is accepted. */
  lemma AcceptedEmission() returns (w: World, r: EnvelopeRequest, v: Evidence, env: Envelope, p: Presented)
    ensures BuildEnvelope(w.engine, r, External, v) == Some(env) && Accepts(w, env, p)
  {
    var who := Service.SamplePrincipal();
    var q := Service.SampleRequest("r1");
    var b := SampleBinding(who);
    var rows := map[who.authenticationRef := Registry.Row(who.fingerprint, Authorization.Encode(who), false)];
    w := World(Engine(0, 50, b.policyVersion), Authority("provider_call", rows, 0));
    r, v := EnvelopeRequest(Some(q), "provider_call", "provider_call", None), SampleEvidence(b);
    SampleEnvelope(w.engine, q, b);
    env := BuildEnvelope(w.engine, r, External, v).value;
    p := Presented(v.trust, v.capability, v.network, None, Some(b), Some(q));
    SampleRevalidates(who, rows, b);
  }

  lemma SampleRevalidates(who: Authorization.Principal, rows: Registry.Rows, b: Authorization.Binding)
    requires Service.IsSample(who) && Authorization.Genuine(who) && who.authenticationRef != ""
    requires rows == map[who.authenticationRef := Registry.Row(who.fingerprint, Authorization.Encode(who), false)]
    requires Authorization.Issued("provider_call", Service.SampleRequest("r1"), who, b) && b.issuedAt == 50
    requires b.policyEpoch == 0 && b.authenticationRef == who.authenticationRef
    ensures Revalidates(Authority("provider_call", rows, 0), Service.SampleRequest("r1"), b, 50)
  {
    Authorization.StoredRoundTrip(who);
    Authorization.RevalidationOfSamePrincipal("provider_call", Service.SampleRequest("r1"), who, b, 0, 50);
  }

  // ----- the enforced transport

  /** What a transport that was made for a decision is bound to. */
  datatype Bound = Bound(operation: string, normalizedTarget: (string, string), connectionRef: string,
                         connectionFingerprint: string, connectionEpoch: int, invalidationEpoch: int)

  function BoundOf(n: NetworkBody): Bound {
    Bound(n.operation, n.normalizedTarget, n.connectionRef, n.connectionFingerprint, n.connectionEpoch,
          n.invalidationEpoch)
  }

  class ProviderTransport {
    const inMemory: bool
    const bound: Option<Bound>
    var calls: seq<string>

    constructor (inMemory: bool, bound: Option<Bound>)
      ensures this.inMemory == inMemory && this.bound == bound && calls == []
    {
      this.inMemory, this.bound, calls := inMemory, bound, [];
    }

    method Send(payload: string)
      modifies this
      ensures calls == old(calls) + [payload]
    {
      calls := calls + [payload];
    }
  }

  datatype ReceiptStatus = ReceiptDenied | ReceiptBlocked | ReceiptExecuted

  datatype Receipt = Receipt(status: ReceiptStatus, transportCalled: bool)

  class EnforcedTransportRuntime {
    var engine: Engine
    const provider: ProviderTransport?
    const externalExecutionAuthorized: bool

    constructor (engine: Engine, provider: ProviderTransport?, externalExecutionAuthorized: bool)
      ensures this.engine == engine && this.provider == provider
      ensures this.externalExecutionAuthorized == externalExecutionAuthorized
    {
      this.engine, this.provider := engine, provider;
      this.externalExecutionAuthorized := externalExecutionAuthorized;
    }

    /** `GateDDecisionEngine.invalidate`. */
    method Invalidate() returns (epoch: int)
      modifies this
      ensures engine == old(engine).(invalidationEpoch := old(engine).invalidationEpoch + 1)
      ensures epoch == engine.invalidationEpoch
    {
      engine := engine.(invalidationEpoch := engine.invalidationEpoch + 1);
      epoch := engine.invalidationEpoch;
    }

    /** `authorize_emission`, asking the given service to revalidate. */
    method AuthorizeEmission(env: Envelope, p: Presented, revalidator: Service.RequestAuthorizationService?)
      returns (accepted: bool)
      ensures accepted == Authorizes(engine, AuthorityOf(revalidator), env, p)
    {
      var x := env.body;
      if !ValidEnvelope(x) || !ValidTrust(p.trust) || !ValidCapability(p.capability) { return false; }
      if env.seal != x { return false; }
      if x.invalidationEpoch != engine.invalidationEpoch { return false; }
      if x.trustState != p.trust.body.trustState || x.capabilityState != p.capability.body.capabilityState {
        return false;
      }
      if x.mode != External || !Allows(x.action) { return false; }
      if p.binding.None? { return false; }
      var b := p.binding.value;
      if !b.IsValid(engine.now, engine.invalidationEpoch) || b.policyVersion != engine.policyVersion { return false; }
      if p.query.None? || !b.IntegrityValid(p.query.value) { return false; }
      if !BoundTo(x, b) { return false; }
      if revalidator == null { return false; }
      var current := revalidator.Revalidate(p.query.value, b, engine.now);
      if !current || p.network.None? { return false; }
      var n := p.network.value;
      if x.networkBindingFingerprint != Some(n.body.connectionFingerprint) { return false; }
      if x.outboundDecisionRef != Some(n.body.decisionId) || x.outboundDecisionFingerprint != n.fingerprint {
        return false;
      }
      if x.destinationBindingRef != n.body.destinationBindingRef { return false; }
      return ValidExternalEmission(x, n, p.lifecycle);
    }

    /** `execute_provider`: the transport is called once, with the payload, exactly
        when the receipt says so, and only after the fence accepted without a
        lifecycle; a transport that is not in memory also needs the deployment's
        authorization, and one made for a decision must be presented with it. */
    method ExecuteProvider(payload: string, env: Envelope, p: Presented,
                           revalidator: Service.RequestAuthorizationService?)
      returns (r: Receipt)
      modifies provider
      ensures r.transportCalled <==> r.status == ReceiptExecuted
      ensures provider != null ==> provider.calls == old(provider.calls) + if r.transportCalled then [payload] else []
      ensures var accepted := Authorizes(engine, AuthorityOf(revalidator), env, p.(lifecycle := None));
              && (!accepted ==> r.status == ReceiptDenied)
              && (accepted && (provider == null || !(provider.inMemory || externalExecutionAuthorized)) ==>
                    r.status == ReceiptBlocked)
              && (r.transportCalled <==>
                    && accepted && provider != null && (provider.inMemory || externalExecutionAuthorized)
                    && (provider.bound.Some? ==> provider.bound.value == BoundOf(p.network.value.body)))
    {
      var accepted := AuthorizeEmission(env, p.(lifecycle := None), revalidator);
      if !accepted { return Receipt(ReceiptDenied, false); }
      if provider == null { return Receipt(ReceiptBlocked, false); }
      if !provider.inMemory && !externalExecutionAuthorized { return Receipt(ReceiptBlocked, false); }
      if provider.bound.Some? && provider.bound.value != BoundOf(p.network.value.body) {
        return Receipt(ReceiptDenied, false);
      }
      provider.Send(payload);
      return Receipt(ReceiptExecuted, true);
    }
  }

  /** What a service object says at this moment. */
  ghost function AuthorityOf(service: Service.RequestAuthorizationService?): Option<Authority>
    reads if service == null then {} else {service.registry, service.policyEpoch}
  {
    if service == null then None
    else Some(Authority(service.operation, service.registry.rows, service.policyEpoch.epoch))
  }

  /** A content operation is never executed by the provider: it needs a lifecycle. */
  lemma ProviderNeverSendsContent(e: Engine, s: Option<Authority>, env: Envelope, p: Presented)
    requires env.body.operation != "provider_call"
    ensures !Authorizes(e, s, env, p.(lifecycle := None))
  {
  }
}
