/** Leak-safe reads (`pmiri/disclosure.py`, `pmiri/read_projection.py`,
    `pmiri/runtime.py`): what a caller sees of a query, authorized or not. */
module ReadProjection {
  import opened Ordering
  import opened Fingerprints
  import opened Evidence
  import opened Store
  import opened Retrieval
  import opened Context
  import Authorization
  import Registry
  import Service

  // ----- the runtime query

  function QueryOf(bound: nat, e: EvidenceSet): QueryResult {
    var c := Compiled(bound, e);
    QueryResult(e.request, c.disposition, c.coverage, e.items, e.authorizationLineage, c)
  }

  /** `LocalEvidenceRuntime.query`. */
  function Query(h: Hash, rd: Reader, bound: nat, store: Local, request: Request): Result<QueryResult, SearchError> {
    match Search(h, rd, store, request)
    case Err(e) => Err(e)
    case Ok(e) => Ok(QueryOf(bound, e))
  }

  // ----- the projection

  datatype RequestView = RequestView(requestId: string, project: string, purpose: string)

  /** An item without its text; an empty conflict group is left out. */
  datatype PublicItem = PublicItem(evidenceRef: string, sourceId: string, versionId: string, projectId: string,
                                   anchor: string, fingerprint: string, score: nat, conflictGroup: Option<string>)

  function View(r: Request): RequestView { RequestView(r.requestId, r.project, r.purpose) }

  function PublicItemOf(i: EvidenceItem): PublicItem {
    PublicItem(i.evidenceRef, i.sourceId, i.versionId, i.projectId, i.anchor, i.fingerprint, i.score,
               if Grouped(i) then i.conflictGroup else None)
  }

  function PublicItems(items: seq<EvidenceItem>): seq<PublicItem> {
    seq(|items|, i requires 0 <= i < |items| => PublicItemOf(items[i]))
  }

  datatype Projection = Projection(request: RequestView, disposition: Disposition, coverage: Coverage,
                                   evidence: seq<PublicItem>, authorizationRef: Ref, evidenceRefs: seq<string>,
                                   context: ContextArtifact)

  /** `_empty_projection`. */
  function EmptyProjection(q: QueryResult): Projection {
    var lineage := ReadLineage(q.request);
    Projection(View(q.request), Empty, Unknown, [], lineage, [],
               ContextArtifact(q.context.bound, "", Unknown, Empty, [], [], lineage, []))
  }

  /** `project_query_result`. */
  function Project(q: QueryResult, authorized: bool): Projection {
    if !authorized || q.evidence == [] then EmptyProjection(q)
    else Projection(View(q.request), q.disposition, q.coverage, PublicItems(q.evidence), q.authorizationLineage,
                    Refs(q.evidence), q.context)
  }

  // ----- the binding and the answer

  /** The caller-visible lineage of a request. */
  datatype PublicBinding = PublicBinding(authorizationRef: Ref, requestFingerprint: Digest, scope: string)

  function BindingFor(requestFingerprint: Digest, scope: string): PublicBinding {
    PublicBinding(Ref("auth", Sha(LineageDoc(requestFingerprint, "server-derived-local-read"))), requestFingerprint,
                  scope)
  }

  /** `_server_binding`. */
  function ServerBinding(r: Request): PublicBinding { BindingFor(Sha(RequestDoc(r)), r.project) }

  /** `RequestAuthorizationBinding.public_lineage`. */
  function PublicLineage(b: Authorization.Binding): PublicBinding { BindingFor(b.requestFingerprint, b.project) }

  /** The continuation token: a fingerprint of binding and evidence references. */
  datatype Cursor = Cursor(binding: PublicBinding, evidenceRefs: seq<string>)

  datatype Response = Response(request: RequestView, disposition: Disposition, coverage: Coverage,
                               evidence: seq<PublicItem>,
                               lineage: PublicBinding, evidenceRefs: seq<string>, context: ContextArtifact,
                               continuation: Cursor)

  /** The end of `_handle_disclosed`; the binding overwrites the projected lineage. */
  function Disclose(q: QueryResult, binding: PublicBinding, authorized: bool): Response {
    var p := Project(q, authorized);
    Response(p.request, p.disposition, p.coverage, p.evidence, binding, p.evidenceRefs, p.context,
             Cursor(binding, p.evidenceRefs))
  }

  function BindingOf(request: Request, e: Authorization.Evaluation): PublicBinding {
    match e
    case Allow(b) => PublicLineage(b)
    case Deny(_) => ServerBinding(request)
  }

  /** `_handle_authenticated`, given the decision and what revalidation says. */
  function Handle(h: Hash, rd: Reader, bound: nat, store: Local, request: Request, e: Authorization.Evaluation,
                  revalidated: bool)
    : Result<Response, SearchError>
  {
    match Query(h, rd, bound, store, request)
    case Err(error) => Err(error)
    case Ok(q) => Ok(Disclose(q, BindingOf(request, e), e.Allow? && revalidated))
  }

  /** `ReadProjectionService` with an authorization service. */
  class ReadProjectionService {
    const h: Hash
    const rd: Reader
    const bound: nat
    const store: LocalStore
    const authorization: Service.RequestAuthorizationService

    constructor (h: Hash, rd: Reader, bound: nat, store: LocalStore, authorization: Service.RequestAuthorizationService)
      ensures this.h == h && this.rd == rd && this.bound == bound && this.store == store
              && this.authorization == authorization
    {
      this.h, this.rd, this.bound, this.store, this.authorization := h, rd, bound, store, authorization;
    }

    /** Evaluate, query, revalidate, disclose. */
    method HandleAuthenticated(request: Request, ref: Option<string>, now: int, clock: real)
      returns (r: Result<Response, SearchError>, ghost e: Authorization.Evaluation)
      requires store.Valid() && store.h == h && bound >= 128
      modifies authorization.limiter, authorization.guard
      ensures var a := Authorization.Attempt(request, Registry.ResolveIn(authorization.registry.rows, ref),
                                             authorization.policyEpoch.epoch, now, clock);
              (authorization.State(), e) ==
              Authorization.Evaluate(Authorization.Config(authorization.operation, authorization.limiter.policy),
                                     old(authorization.State()), a)
      ensures r == Handle(h, rd, bound, Local(store.index, store.blobs), request, e,
                          e.Allow? && Authorization.Revalidates(authorization.operation,
                          Registry.ResolveIn(authorization.registry.rows, Some(e.binding.authenticationRef)),
                            authorization.policyEpoch.epoch, request, e.binding, now))
    {
      var evaluation := authorization.Evaluate(request, ref, now, clock);
      e := evaluation;
      var evidence := SearchStore(h, rd, store, request);
      if evidence.Err? { return Err(evidence.error), e; }
      var context := Compile(bound, evidence.value);
      var q := QueryResult(request, context.disposition, context.coverage, evidence.value.items,
                           evidence.value.authorizationLineage, context);
      var authorized := evaluation.Allow?;
      if authorized {
        authorized := authorization.Revalidate(request, evaluation.binding, now);
      }
      r := Ok(Disclose(q, BindingOf(request, evaluation), authorized));
    }
  }

  // ----- non-interference

  /** What `evaluate` guarantees of a binding it issues for a request. */
  predicate IssuedFor(request: Request, e: Authorization.Evaluation) {
    e.Allow? ==> e.binding.requestFingerprint == Sha(RequestDoc(request)) && e.binding.project == request.project
  }

  lemma EvaluationIsIssuedFor(cfg: Authorization.Config, k: Authorization.Counters, a: Authorization.Attempt)
    ensures IssuedFor(a.request, Authorization.Evaluate(cfg, k, a).1)
  {
  }

  /** The read discloses nothing: refused, failed at revalidation, or without a hit. */
  ghost predicate Silent(h: Hash, rd: Reader, store: Local, request: Request, e: Authorization.Evaluation,
                         revalidated: bool) {
    || !(e.Allow? && revalidated)
    || (Search(h, rd, store, request).Ok? && Search(h, rd, store, request).value.items == [])
  }

  /** On a store whose listed blobs are sound, a search fails only for its request. */
  lemma QueryFailsOnlyForTheRequest(h: Hash, rd: Reader, bound: nat, store: Local, request: Request)
    requires LocalInv(h, store)
    ensures LocalList(h, store, Some(request.project), false).Ok?
    ensures Query(h, rd, bound, store, request) ==
            if !WellFormed(request) then Err(SearchError.RequestInvalid)
            else if rd.tokens(request.query) == [] then Err(QueryHasNoTokens)
            else Ok(QueryOf(bound, EvidenceOf(rd, request, LocalList(h, store, Some(request.project), false).value)))
  {
    CurrentListing(h, store, request.project);
  }

  /** Every silent read of one request under one bound has one and the same answer,
      field by field, lineage and continuation included: whatever two stores hold,
      whatever the decisions were, and whether the read was refused, failed its
      revalidation or was allowed and found nothing. */
  lemma NonInterference(h: Hash, rd: Reader, bound: nat, request: Request,
                        store: Local, e: Authorization.Evaluation, revalidated: bool,
                        other: Local, f: Authorization.Evaluation, revalidatedOther: bool)
    requires LocalInv(h, store) && LocalInv(h, other)
    requires IssuedFor(request, e) && IssuedFor(request, f)
    requires Silent(h, rd, store, request, e, revalidated) && Silent(h, rd, other, request, f, revalidatedOther)
    ensures Handle(h, rd, bound, store, request, e, revalidated) ==
            Handle(h, rd, bound, other, request, f, revalidatedOther)
  {
    QueryFailsOnlyForTheRequest(h, rd, bound, store, request);
    QueryFailsOnlyForTheRequest(h, rd, bound, other, request);
  }

  /** An answer shows evidence exactly when the read was allowed, revalidated and
      found something, and then it shows all of it in order. */
  lemma EvidenceShownExactly(h: Hash, rd: Reader, bound: nat, store: Local, request: Request,
                             e: Authorization.Evaluation, revalidated: bool)
    requires Handle(h, rd, bound, store, request, e, revalidated).Ok?
    ensures var r := Handle(h, rd, bound, store, request, e, revalidated).value;
            && (r.evidence != [] <==> !Silent(h, rd, store, request, e, revalidated))
            && (r.evidence != [] ==>
                  var found := Search(h, rd, store, request).value;
                  && |r.evidence| == |r.evidenceRefs| == |found.items|
                  && (forall i :: 0 <= i < |found.items| ==>
                        Shows(r.evidence[i], found.items[i]) && r.evidenceRefs[i] == found.items[i].evidenceRef)
                  && r.context == Compiled(bound, found) && r.coverage == found.coverage
                  && r.disposition == r.context.disposition
                  && r.request == RequestView(request.requestId, request.project, request.purpose)
                  && r.lineage.requestFingerprint == e.binding.requestFingerprint
                     && r.lineage.scope == e.binding.project
                  && r.lineage.authorizationRef ==
                     Ref("auth", Sha(LineageDoc(e.binding.requestFingerprint, "server-derived-local-read")))
                  && r.continuation == Cursor(r.lineage, r.evidenceRefs))
  {
  }

  /** What the public sees of an item: everything but its text. */
  predicate Shows(shown: PublicItem, i: EvidenceItem) {
    && shown.evidenceRef == i.evidenceRef && shown.sourceId == i.sourceId && shown.versionId == i.versionId
    && shown.projectId == i.projectId && shown.anchor == i.anchor && shown.fingerprint == i.fingerprint
    && shown.score == i.score && (shown.conflictGroup == Some("") ==> false)
    && (shown.conflictGroup.Some? ==> shown.conflictGroup == i.conflictGroup)
    && (i.conflictGroup.Some? && i.conflictGroup.value != "" ==> shown.conflictGroup == i.conflictGroup)
  }

  /** The silent answer: nothing of any store in it, only the request's own names, the
      bound, and a lineage and continuation derived from the request. */
  lemma SilentAnswer(h: Hash, rd: Reader, bound: nat, store: Local, request: Request, e: Authorization.Evaluation,
                     revalidated: bool)
    requires Handle(h, rd, bound, store, request, e, revalidated).Ok? && IssuedFor(request, e)
    requires Silent(h, rd, store, request, e, revalidated)
    ensures var r := Handle(h, rd, bound, store, request, e, revalidated).value;
            && r.request == RequestView(request.requestId, request.project, request.purpose)
            && r.evidence == [] && r.evidenceRefs == [] && r.disposition == Empty && r.coverage == Unknown
            && r.context.bound == bound && r.context.text == "" && r.context.disposition == Empty
            && r.context.coverage == Unknown && r.context.evidenceRefs == [] && r.context.citationRefs == []
            && r.context.omissionLedger == []
            && r.context.authorizationLineage ==
               Ref("auth", Sha(ReadLineageDoc(request.project, request.purpose, request.requestId)))
            && r.lineage.requestFingerprint == Sha(RequestDoc(request)) && r.lineage.scope == request.project
            && r.lineage.authorizationRef ==
               Ref("auth", Sha(LineageDoc(Sha(RequestDoc(request)), "server-derived-local-read")))
            && r.continuation == Cursor(r.lineage, [])
  {
  }

  /** What a search returns always meets the condition packing needs, so no query
      loses an item: each is in the context once or in an omitted unit, and each
      conflict group is wholly shown or wholly in the ledger. */
  lemma QueryLosesNothing(rd: Reader, bound: nat, request: Request, sources: seq<SourceRecord>, g: string)
    ensures var e := EvidenceOf(rd, request, sources);
            var p := Pack(bound, e);
            && multiset(p.selected) + multiset(Flatten(p.omitted)) == multiset(e.items)
            && |Compiled(bound, e).text| <= bound
            && (g != "" && InGroup(e.items, g) != [] ==>
                  InGroup(p.selected, g) ==
                  if Omission(ConflictGroupExceedsContextBound, g) in Compiled(bound, e).omissionLedger then []
                  else InGroup(e.items, g))
  {
    var e := EvidenceOf(rd, request, sources);
    SearchListsItsGroups(rd, request, sources);
    ConservationExact(bound, e);
    CompiledContract(bound, e);
    if g != "" && InGroup(e.items, g) != [] { GroupsAllOrNothing(bound, e, g); }
  }

  lemma SearchListsItsGroups(rd: Reader, request: Request, sources: seq<SourceRecord>)
    ensures RepeatsListed(EvidenceOf(rd, request, sources))
  {
    var e := EvidenceOf(rd, request, sources);
    GroupsListed(e.items);
    SortedSetSpec(GroupNames(e.items));
    forall g: string | g != "" && |InGroup(e.items, g)| >= 2 ensures g in e.conflictGroups {
      InGroupMembers(e.items, g);
      var x := InGroup(e.items, g)[0];
      assert x in e.items && x.conflictGroup == Some(g);
    }
  }
}
