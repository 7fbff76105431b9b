/** Principals, request bindings and the authorization decision
    (`pmiri/request_auth.py`, `pmiri/security.py`), with the durable registry of
    `pmiri/control_plane.py`.  Timestamps are integers. */
module Authorization {
  import opened Ordering
  import opened Fingerprints
  import RateLimiter
  import Replay

  const ACTIVE := "ACTIVE"

  datatype Error =
    | AttestationMissing | AttestationInvalid
    | PrincipalFieldMissing | PrincipalAuthorityEmpty | PrincipalStateInvalid | TrustZonePrincipalMismatch
      | PrincipalValidityInvalid
    | StoredAttestationMismatch | StoredPrincipalMismatch
    | ReferenceRebound | PrincipalRevoked
    | RequestInvalid | PurposeBindingMissing | SubjectChainMissing | EffectiveAuthorityEmpty

  predicate Within(from: int, until: int, now: int) { from <= now <= until }

  predicate NonEmpty(values: seq<string>) { "" !in values }

  // ----- trust zone attestations

  datatype Attestation = Attestation(
    attestationId: Ref, principalRef: string, zoneId: string, issuerRef: string, evidenceRefs: seq<string>,
    issuedAt: int, validUntil: int, status: string, fingerprint: Digest)
  {
    predicate IsValid(principalRef: string, now: int) {
      status == ACTIVE && this.principalRef == principalRef && Within(issuedAt, validUntil, now)
    }
  }

  /** `TrustZoneAttestation.issue`. */
  function Issue(principalRef: string, zoneId: string, issuerRef: string, evidenceRefs: seq<string>,
                 issuedAt: int, validUntil: int, status: string): Result<Attestation, Error>
  {
    var refs := SortedSet(evidenceRefs);
    if !NonEmpty([principalRef, zoneId, issuerRef]) then Err(AttestationMissing)
    else if refs == [] || status != ACTIVE || !Within(issuedAt, validUntil, issuedAt) then Err(AttestationInvalid)
    else
      var fingerprint := Sha(AttestationDoc(principalRef, zoneId, issuerRef, refs, issuedAt, validUntil, status));
      Ok(Attestation(Ref("trust-attestation", fingerprint), principalRef, zoneId, issuerRef, refs, issuedAt, validUntil,
                     status, fingerprint))
  }

  function Reissue(a: Attestation): Result<Attestation, Error> {
    Issue(a.principalRef, a.zoneId, a.issuerRef, a.evidenceRefs, a.issuedAt, a.validUntil, a.status)
  }

  // ----- authenticated principals

  datatype Principal = Principal(
    authenticationRef: string, principalRef: string, principalType: string, servicePrincipalRef: string,
    workloadPrincipalRef: Option<string>, humanPrincipalRef: Option<string>, attestation: Attestation,
    allowedProjects: seq<string>, allowedOperations: seq<string>, allowedPurposes: seq<string>,
    delegationGrantRefs: seq<string>, policyBundleRef: string, policyVersion: string, policyEpoch: int,
    issuedAt: int, validUntil: int, status: string, fingerprint: Digest)
  {
    predicate IsValid(now: int, currentPolicyEpoch: int) {
      && status == ACTIVE && policyEpoch == currentPolicyEpoch && Within(issuedAt, validUntil, now)
      && attestation.IsValid(principalRef, now)
    }
  }

  /** `AuthenticatedPrincipal.verified`. */
  function Verified(authenticationRef: string, principalRef: string, principalType: string, servicePrincipalRef: string,
                    workloadPrincipalRef: Option<string>, humanPrincipalRef: Option<string>, attestation: Attestation,
                    allowedProjects: seq<string>, allowedOperations: seq<string>, allowedPurposes: seq<string>,
                    delegationGrantRefs: seq<string>, policyBundleRef: string, policyVersion: string, policyEpoch: int,
                    issuedAt: int, validUntil: int, status: string): Result<Principal, Error>
  {
    var projects, operations, purposes := SortedSet(allowedProjects), SortedSet(allowedOperations),
      SortedSet(allowedPurposes);
    var grants := SortedSet(delegationGrantRefs);
    if !NonEmpty([authenticationRef, principalRef, principalType, servicePrincipalRef, policyBundleRef,
                  policyVersion]) then
      Err(PrincipalFieldMissing)
    else if projects == [] || operations == [] || purposes == [] || !NonEmpty(projects + operations + purposes) then
      Err(PrincipalAuthorityEmpty)
    else if policyEpoch < 0 || status != ACTIVE then Err(PrincipalStateInvalid)
    else if attestation.principalRef != principalRef then Err(TrustZonePrincipalMismatch)
    else if !Within(issuedAt, validUntil, issuedAt) then Err(PrincipalValidityInvalid)
    else
      Ok(Principal(authenticationRef, principalRef, principalType, servicePrincipalRef, workloadPrincipalRef,
                   humanPrincipalRef, attestation, projects, operations, purposes, grants, policyBundleRef,
                   policyVersion,
                   policyEpoch, issuedAt, validUntil, status,
                   Sha(PrincipalDoc(authenticationRef, principalRef, principalType, servicePrincipalRef,
                                    workloadPrincipalRef, humanPrincipalRef, attestation.fingerprint, projects,
                                    operations,
                                    purposes, grants, policyBundleRef, policyVersion, policyEpoch, issuedAt, validUntil,
                                    status))))
  }

  function Reverify(p: Principal): Result<Principal, Error> {
    Verified(p.authenticationRef, p.principalRef, p.principalType, p.servicePrincipalRef, p.workloadPrincipalRef,
             p.humanPrincipalRef, p.attestation, p.allowedProjects, p.allowedOperations, p.allowedPurposes,
             p.delegationGrantRefs, p.policyBundleRef, p.policyVersion, p.policyEpoch, p.issuedAt, p.validUntil,
             p.status)
  }

  /** Built by `verified` from an attestation built by `issue`. */
  ghost predicate Genuine(p: Principal) {
    && (exists w, h, projects, operations, purposes, grants ::
          Verified(p.authenticationRef, p.principalRef, p.principalType, p.servicePrincipalRef, w, h, p.attestation,
                   projects, operations, purposes, grants, p.policyBundleRef, p.policyVersion, p.policyEpoch,
                   p.issuedAt,
                   p.validUntil, p.status) == Ok(p))
    && (exists evidence ::
          Issue(p.attestation.principalRef, p.attestation.zoneId, p.attestation.issuerRef, evidence,
                p.attestation.issuedAt, p.attestation.validUntil, p.attestation.status) == Ok(p.attestation))
  }

  lemma GenuineRebuilds(p: Principal)
    requires Genuine(p)
    ensures Reissue(p.attestation) == Ok(p.attestation) && Reverify(p) == Ok(p)
  {
    AttestationRebuilds(p.attestation);
    var w, h, projects, operations, purposes, grants :|
      Verified(p.authenticationRef, p.principalRef, p.principalType, p.servicePrincipalRef, w, h, p.attestation,
               projects, operations, purposes, grants, p.policyBundleRef, p.policyVersion, p.policyEpoch, p.issuedAt,
               p.validUntil, p.status) == Ok(p);
    PrincipalRebuilds(p, w, h, projects, operations, purposes, grants);
  }

  lemma PrincipalRebuilds(p: Principal, w: Option<string>, h: Option<string>, projects: seq<string>,
                          operations: seq<string>, purposes: seq<string>, grants: seq<string>)
    requires Verified(p.authenticationRef, p.principalRef, p.principalType, p.servicePrincipalRef, w, h, p.attestation,
                      projects, operations, purposes, grants, p.policyBundleRef, p.policyVersion, p.policyEpoch,
                      p.issuedAt,
                      p.validUntil, p.status) == Ok(p)
    ensures Reverify(p) == Ok(p)
  {
    SortedSetCanonical(projects, projects);
    SortedSetCanonical(operations, operations);
    SortedSetCanonical(purposes, purposes);
    SortedSetCanonical(grants, grants);
  }

  lemma AttestationRebuilds(a: Attestation)
    requires exists evidence ::
               Issue(a.principalRef, a.zoneId, a.issuerRef, evidence, a.issuedAt, a.validUntil, a.status) == Ok(a)
    ensures Reissue(a) == Ok(a)
  {
    var evidence :| Issue(a.principalRef, a.zoneId, a.issuerRef, evidence, a.issuedAt, a.validUntil, a.status) == Ok(a);
    SortedSetCanonical(evidence, evidence);
  }

  /** A list kept as the program keeps it: sorted, without repeats, same members. */
  ghost predicate SameSorted(kept: seq<string>, given: seq<string>) {
    Increasing(StrKey, kept) && forall x :: x in kept <==> x in given
  }

  /** `issue` accepts exactly a fully named, ACTIVE attestation with evidence and a
      forward interval, and keeps what it was given. */
  lemma IssuedExactly(principalRef: string, zoneId: string, issuerRef: string, evidence: seq<string>, issuedAt: int,
                      validUntil: int, status: string)
    ensures var r := Issue(principalRef, zoneId, issuerRef, evidence, issuedAt, validUntil, status);
            && (r.Ok? <==>
                && principalRef != "" && zoneId != "" && issuerRef != "" && evidence != [] && status == "ACTIVE"
                && issuedAt <= validUntil)
            && (r.Ok? ==>
                && r.value.principalRef == principalRef && r.value.zoneId == zoneId && r.value.issuerRef == issuerRef
                && r.value.issuedAt == issuedAt && r.value.validUntil == validUntil && r.value.status == status
                && SameSorted(r.value.evidenceRefs, evidence))
  {
    SortedSetSpec(evidence);
    if evidence != [] { assert evidence[0] in evidence; }
  }

  /** A genuine principal has every name, some of each authority and no empty one, an
      epoch, a forward interval and an attestation of its own; its lists are sorted. */
  lemma GenuineMeans(p: Principal)
    requires Genuine(p)
    ensures p.authenticationRef != "" && p.principalRef != "" && p.principalType != "" && p.servicePrincipalRef != ""
    ensures p.policyBundleRef != "" && p.policyVersion != "" && p.policyEpoch >= 0 && p.status == "ACTIVE"
    ensures p.issuedAt <= p.validUntil && p.attestation.principalRef == p.principalRef
    ensures p.allowedProjects != [] && p.allowedOperations != [] && p.allowedPurposes != []
    ensures "" !in p.allowedProjects && "" !in p.allowedOperations && "" !in p.allowedPurposes
    ensures p.attestation.zoneId != "" && p.attestation.issuerRef != "" && p.attestation.evidenceRefs != []
    ensures p.attestation.status == "ACTIVE" && p.attestation.issuedAt <= p.attestation.validUntil
  {
    GenuineRebuilds(p);
    var names := [p.authenticationRef, p.principalRef, p.principalType, p.servicePrincipalRef, p.policyBundleRef,
                  p.policyVersion];
    assert names[0] in names && names[1] in names && names[2] in names && names[3] in names && names[4] in names
           && names[5] in names;
    var all := p.allowedProjects + p.allowedOperations + p.allowedPurposes;
    assert forall x :: x in p.allowedProjects || x in p.allowedOperations || x in p.allowedPurposes ==> x in all;
    var a := p.attestation;
    IssuedExactly(a.principalRef, a.zoneId, a.issuerRef, a.evidenceRefs, a.issuedAt, a.validUntil, a.status);
  }

  /** And whatever is like that is genuine, given the fingerprint of its own fields. */
  lemma VerifiedExactly(authenticationRef: string, principalRef: string, principalType: string,
                        servicePrincipalRef: string, w: Option<string>, h: Option<string>, a: Attestation,
                        projects: seq<string>, operations: seq<string>, purposes: seq<string>, grants: seq<string>,
                        policyBundleRef: string, policyVersion: string, epoch: int, issuedAt: int, validUntil: int,
                        status: string)
    ensures var r := Verified(authenticationRef, principalRef, principalType, servicePrincipalRef, w, h, a, projects,
                              operations, purposes, grants, policyBundleRef, policyVersion, epoch, issuedAt, validUntil,
                              status);
            && (r.Ok? <==>
                && "" !in [authenticationRef, principalRef, principalType, servicePrincipalRef, policyBundleRef,
                           policyVersion]
                && projects != [] && operations != [] && purposes != []
                && "" !in projects && "" !in operations && "" !in purposes
                && epoch >= 0 && status == "ACTIVE" && a.principalRef == principalRef && issuedAt <= validUntil)
            && (r.Ok? ==>
                && SameSorted(r.value.allowedProjects, projects) && SameSorted(r.value.allowedOperations, operations)
                && SameSorted(r.value.allowedPurposes, purposes) && SameSorted(r.value.delegationGrantRefs, grants)
                && r.value.authenticationRef == authenticationRef && r.value.principalRef == principalRef
                && r.value.principalType == principalType && r.value.servicePrincipalRef == servicePrincipalRef
                && r.value.workloadPrincipalRef == w && r.value.humanPrincipalRef == h && r.value.attestation == a
                && r.value.policyBundleRef == policyBundleRef && r.value.policyVersion == policyVersion
                && r.value.policyEpoch == epoch && r.value.issuedAt == issuedAt && r.value.validUntil == validUntil
                && r.value.status == status)
  {
    SortedSetSpec(projects);
    SortedSetSpec(operations);
    SortedSetSpec(purposes);
    SortedSetSpec(grants);
    if projects != [] { assert projects[0] in projects; }
    if operations != [] { assert operations[0] in operations; }
    if purposes != [] { assert purposes[0] in purposes; }
    var sp, so, su := SortedSet(projects), SortedSet(operations), SortedSet(purposes);
    assert forall x :: x in sp + so + su <==> x in projects || x in operations || x in purposes;
  }

  // ----- the stored form of a principal

  /** The JSON object of `_principal_payload`, tuples turned into lists. */
  datatype StoredPrincipal = StoredPrincipal(
    authenticationRef: string, principalRef: string, principalType: string, servicePrincipalRef: string,
    workloadPrincipalRef: Option<string>, humanPrincipalRef: Option<string>, attestation: Attestation,
    allowedProjects: seq<string>, allowedOperations: seq<string>, allowedPurposes: seq<string>,
    delegationGrantRefs: seq<string>, policyBundleRef: string, policyVersion: string, policyEpoch: int,
    issuedAt: int, validUntil: int, status: string, fingerprint: Digest)

  function Encode(p: Principal): StoredPrincipal {
    StoredPrincipal(p.authenticationRef, p.principalRef, p.principalType, p.servicePrincipalRef, p.workloadPrincipalRef,
                    p.humanPrincipalRef, p.attestation, p.allowedProjects, p.allowedOperations, p.allowedPurposes,
                    p.delegationGrantRefs, p.policyBundleRef, p.policyVersion, p.policyEpoch, p.issuedAt, p.validUntil,
                    p.status, p.fingerprint)
  }

  /** `_principal_from_payload`: everything is rebuilt and compared with the
      stored fingerprints. */
  function Decode(x: StoredPrincipal): Result<Principal, Error> {
    match Reissue(x.attestation)
    case Err(e) => Err(e)
    case Ok(expected) =>
      if expected != x.attestation then Err(StoredAttestationMismatch)
      else
        match Verified(x.authenticationRef, x.principalRef, x.principalType, x.servicePrincipalRef,
                       x.workloadPrincipalRef,
                       x.humanPrincipalRef, x.attestation, x.allowedProjects, x.allowedOperations, x.allowedPurposes,
                       x.delegationGrantRefs, x.policyBundleRef, x.policyVersion, x.policyEpoch, x.issuedAt,
                       x.validUntil,
                       x.status)
        case Err(e) => Err(e)
        case Ok(p) => if p.fingerprint != x.fingerprint then Err(StoredPrincipalMismatch) else Ok(p)
  }

  /** Decoding an encoded genuine principal returns it. */
  lemma StoredRoundTrip(p: Principal)
    requires Genuine(p)
    ensures Decode(Encode(p)) == Ok(p)
  {
    GenuineRebuilds(p);
  }

  lemma DecodedIsGenuine(x: StoredPrincipal)
    requires Decode(x).Ok?
    ensures Genuine(Decode(x).value)
    ensures Decode(x).value.fingerprint == x.fingerprint
    ensures Decode(x).value.authenticationRef == x.authenticationRef
  {
    var p := Decode(x).value;
    assert Verified(p.authenticationRef, p.principalRef, p.principalType, p.servicePrincipalRef, x.workloadPrincipalRef,
                    x.humanPrincipalRef, p.attestation, x.allowedProjects, x.allowedOperations, x.allowedPurposes,
                    x.delegationGrantRefs, p.policyBundleRef, p.policyVersion, p.policyEpoch, p.issuedAt, p.validUntil,
                    p.status) == Ok(p);
    assert Issue(p.attestation.principalRef, p.attestation.zoneId, p.attestation.issuerRef, x.attestation.evidenceRefs,
                 p.attestation.issuedAt, p.attestation.validUntil, p.attestation.status) == Ok(p.attestation);
  }

  /** The fingerprint decides: two genuine principals with one fingerprint are one
      principal, so an altered payload that still decodes under an issued
      fingerprint decodes to the principal that was issued. */
  lemma FingerprintDecides(p: Principal, q: Principal)
    requires Genuine(p) && Genuine(q) && p.fingerprint == q.fingerprint
    ensures p == q
  {
    GenuineRebuilds(p);
    GenuineRebuilds(q);
    assert p.attestation.fingerprint == q.attestation.fingerprint;
    assert p.attestation == q.attestation;
  }

  // ----- authority

  function Common(values: seq<string>, scopes: seq<Scope>, key: string): seq<string>
    requires forall i :: 0 <= i < |scopes| ==> key in scopes[i]
  {
    if values == [] then []
    else
      (if forall i :: 0 <= i < |scopes| ==> values[0] in scopes[i][key] then [values[0]] else []) +
      Common(values[1..], scopes, key)
  }

  /** `intersect_authority`. */
  function IntersectAuthority(scopes: seq<Scope>): Scope {
    if scopes == [] then map[]
    else
      map key | key in scopes[0] && (forall i :: 0 <= i < |scopes| ==> key in scopes[i]) ::
        SortedSet(Common(scopes[0][key], scopes, key))
  }

  lemma {:induction false} CommonMembers(values: seq<string>, scopes: seq<Scope>, key: string, x: string)
    requires forall i :: 0 <= i < |scopes| ==> key in scopes[i]
    ensures x in Common(values, scopes, key) <==> x in values && forall i :: 0 <= i < |scopes| ==> x in scopes[i][key]
  {
    if values != [] { CommonMembers(values[1..], scopes, key, x); }
  }

  /** A privilege survives exactly when every scope grants it. */
  lemma AuthorityIsTheIntersection(scopes: seq<Scope>, key: string, x: string)
    requires scopes != []
    ensures key in IntersectAuthority(scopes) <==> forall i :: 0 <= i < |scopes| ==> key in scopes[i]
    ensures key in IntersectAuthority(scopes) ==>
              (x in IntersectAuthority(scopes)[key] <==> forall i :: 0 <= i < |scopes| ==> x in scopes[i][key])
    ensures key in IntersectAuthority(scopes) ==> Increasing(StrKey, IntersectAuthority(scopes)[key])
  {
    if forall i :: 0 <= i < |scopes| ==> key in scopes[i] {
      CommonMembers(scopes[0][key], scopes, key, x);
      SortedSetSpec(Common(scopes[0][key], scopes, key));
    }
  }

  // ----- the binding of one request

  datatype Binding = Binding(
    bindingId: Ref, requestId: string, requestFingerprint: Digest, authenticationRef: string, principalRef: string,
    subjectChainFingerprint: Digest, attestationFingerprint: Digest, trustZone: string,
    purposeBindingFingerprint: Digest,
    operation: string, purpose: string, project: string, policyBundleRef: string, policyVersion: string,
    policyEpoch: int,
    issuedAt: int, validUntil: int, fingerprint: Digest)
  {
    predicate IsValid(now: int, currentPolicyEpoch: int) {
      policyEpoch == currentPolicyEpoch && Within(issuedAt, validUntil, now)
    }

    /** `integrity_valid`. */
    predicate IntegrityValid(request: Request) {
      && WellFormed(request) && requestId == request.requestId && requestFingerprint == Sha(RequestDoc(request))
      && fingerprint == Sha(BindingDoc(request, authenticationRef, principalRef, subjectChainFingerprint,
                                       attestationFingerprint, trustZone, purposeBindingFingerprint, operation, project,
                                       policyBundleRef, policyVersion, policyEpoch, issuedAt, validUntil))
    }
  }

  function OperationRef(operation: string): string { "pmiri://operation/" + operation }

  function PurposeDocument(operation: string, request: Request, p: Principal): Document {
    PurposeDoc(OperationRef(operation), request.purpose, p.policyBundleRef)
  }

  function Scopes(operation: string, request: Request, p: Principal): seq<Scope> {
    [map["project" := p.allowedProjects, "operation" := p.allowedOperations, "purpose" := p.allowedPurposes],
     map["project" := [request.project], "operation" := [operation], "purpose" := [request.purpose]]]
  }

  function SubjectDocument(operation: string, request: Request, p: Principal): Document {
    SubjectDoc(p.humanPrincipalRef, p.servicePrincipalRef, p.workloadPrincipalRef, SortedSet(p.delegationGrantRefs),
               p.attestation.attestationId, OperationRef(operation),
               Ref("purpose", Sha(PurposeDocument(operation, request, p))),
               IntersectAuthority(Scopes(operation, request, p)))
  }

  /** `_build_binding`. */
  function BuildBinding(operation: string, request: Request, p: Principal, issuedAt: int): Result<Binding, Error> {
    var effective := IntersectAuthority(Scopes(operation, request, p));
    if !WellFormed(request) then Err(RequestInvalid)
    else if request.purpose == "" || p.policyBundleRef == "" then Err(PurposeBindingMissing)
    else if p.servicePrincipalRef == "" then Err(SubjectChainMissing)
    else if !exists key :: key in effective && effective[key] != [] then Err(EffectiveAuthorityEmpty)
    else
      var purpose, subject := Sha(PurposeDocument(operation, request, p)), Sha(SubjectDocument(operation, request, p));
      var fingerprint :=
        Sha(BindingDoc(request, p.authenticationRef, p.principalRef, subject, p.attestation.fingerprint,
                                        p.attestation.zoneId, purpose, operation, request.project, p.policyBundleRef,
                                        p.policyVersion, p.policyEpoch, issuedAt, p.validUntil));
      Ok(Binding(Ref("request-auth", fingerprint), request.requestId, Sha(RequestDoc(request)), p.authenticationRef,
                 p.principalRef, subject, p.attestation.fingerprint, p.attestation.zoneId, purpose, operation,
                 request.purpose, request.project, p.policyBundleRef, p.policyVersion, p.policyEpoch, issuedAt,
                 p.validUntil, fingerprint))
  }

  /** The principal may do what the request asks. */
  predicate Grants(operation: string, request: Request, p: Principal) {
    request.project in p.allowedProjects && operation in p.allowedOperations && request.purpose in p.allowedPurposes
  }

  function Singletons(operation: string, request: Request): Scope {
    map["project" := [request.project], "operation" := [operation], "purpose" := [request.purpose]]
  }

  lemma SingletonOf(s: seq<string>, x: string)
    requires Increasing(StrKey, s)
    requires forall y :: y in s <==> y == x
    ensures s == [x]
  {
    assert x in s && s[0] in s;
    if |s| > 1 {
      assert s[1] in s;
      KeyOrder(StrKey(s[0]), StrKey(s[1]));
    }
  }

  lemma EffectiveValues(operation: string, request: Request, p: Principal, key: string)
    requires key in {"project", "operation", "purpose"}
    ensures var scopes := Scopes(operation, request, p);
            && key in IntersectAuthority(scopes)
            && (forall x :: x in IntersectAuthority(scopes)[key] <==> x in scopes[0][key] && x in scopes[1][key])
            && Increasing(StrKey, IntersectAuthority(scopes)[key])
  {
    var scopes := Scopes(operation, request, p);
    AuthorityIsTheIntersection(scopes, key, "");
    forall x ensures x in IntersectAuthority(scopes)[key] <==> x in scopes[0][key] && x in scopes[1][key] {
      AuthorityIsTheIntersection(scopes, key, x);
    }
  }

  /** The effective authority is the singleton project, operation and purpose
      exactly when the principal grants all three. */
  lemma EffectiveAuthority(operation: string, request: Request, p: Principal)
    ensures IntersectAuthority(Scopes(operation, request, p)) == Singletons(operation, request) <==>
            Grants(operation, request, p)
  {
    var scopes := Scopes(operation, request, p);
    var effective := IntersectAuthority(scopes);
    EffectiveValues(operation, request, p, "project");
    EffectiveValues(operation, request, p, "operation");
    EffectiveValues(operation, request, p, "purpose");
    if Grants(operation, request, p) {
      SingletonOf(effective["project"], request.project);
      SingletonOf(effective["operation"], operation);
      SingletonOf(effective["purpose"], request.purpose);
      assert effective.Keys == {"project", "operation", "purpose"};
    }
    if effective == Singletons(operation, request) {
      assert request.project in effective["project"];
      assert operation in effective["operation"];
      assert request.purpose in effective["purpose"];
    }
  }

  // ----- evaluate and revalidate

  datatype Reason =
    | AuthenticationUnknown | AuthorityStaleOrInvalid | ScopeMismatch | OperationNotAllowed | PurposeNotAllowed
    | RateLimited | RequestReplay | AuthorizationInvalid

  datatype Evaluation = Allow(binding: Binding) | Deny(reason: Reason)

  datatype Config = Config(operation: string, limits: RateLimiter.Policy)

  /** The consumable state behind a decision. */
  datatype Counters = Counters(windows: RateLimiter.Windows, replays: Replay.Table)

  /** One call of `evaluate`: what the registry resolved the reference to, the
      policy epoch, and the two clocks it reads. */
  datatype Attempt = Attempt(request: Request, resolved: Option<Principal>, epoch: int, now: int, clock: real)

  /** The checks made before anything is consumed. */
  function Screen(operation: string, a: Attempt): Result<Principal, Reason> {
    if !WellFormed(a.request) then Err(AuthorizationInvalid)
    else if a.resolved.None? then Err(AuthenticationUnknown)
    else
      var p := a.resolved.value;
      if !p.IsValid(a.now, a.epoch) then Err(AuthorityStaleOrInvalid)
      else if a.request.project !in p.allowedProjects then Err(ScopeMismatch)
      else if operation !in p.allowedOperations then Err(OperationNotAllowed)
      else if a.request.purpose !in p.allowedPurposes then Err(PurposeNotAllowed)
      else Ok(p)
  }

  function LimiterCall(operation: string, p: Principal, clock: real): RateLimiter.Call {
    RateLimiter.Call(p.principalRef + ":" + operation, clock)
  }

  function ReplayCall(b: Binding, now: int): Replay.Call {
    Replay.Call(b.requestId, b.fingerprint, b.validUntil, now)
  }

  /** `evaluate` up to the replay guard: screening, the limiter, the binding. */
  function Ask(cfg: Config, windows: RateLimiter.Windows, a: Attempt): (RateLimiter.Windows, Result<Binding, Reason>) {
    match Screen(cfg.operation, a)
    case Err(reason) => (windows, Err(reason))
    case Ok(p) =>
      var call := LimiterCall(cfg.operation, p, a.clock);
      var next := RateLimiter.Advance(cfg.limits, windows, call);
      if !RateLimiter.Admits(cfg.limits, windows, call) then (next, Err(RateLimited))
      else
        match BuildBinding(cfg.operation, a.request, p, a.now)
        case Err(_) => (next, Err(AuthorizationInvalid))
        case Ok(b) => (next, Ok(b))
  }

  /** `RequestAuthorizationService.evaluate`: the new counters and the decision. */
  function Evaluate(cfg: Config, k: Counters, a: Attempt): (Counters, Evaluation) {
    var (windows, asked) := Ask(cfg, k.windows, a);
    match asked
    case Err(reason) => (k.(windows := windows), Deny(reason))
    case Ok(b) =>
      var call := ReplayCall(b, a.now);
      (Counters(windows, Replay.SqlAdvance(k.replays, call)),
       if Replay.SqlAdmits(k.replays, call) then Allow(b) else Deny(RequestReplay))
  }

  /** `RequestAuthorizationService.revalidate`. */
  predicate Revalidates(operation: string, resolved: Option<Principal>, epoch: int, request: Request, b: Binding,
                        now: int) {
    && WellFormed(request)
    && resolved.Some?
    && var q := resolved.value;
    && q.IsValid(now, epoch)
    && b.policyEpoch == epoch
    && b.requestFingerprint == Sha(RequestDoc(request))
    && b.principalRef == q.principalRef
    && request.project in q.allowedProjects
    && request.purpose in q.allowedPurposes && operation in q.allowedOperations
    && BuildBinding(operation, request, q, b.issuedAt) == Ok(b)
    && b.IsValid(now, epoch)
  }

  /** Every issued binding is the genuine binding of its request: it passes the
      integrity check, was built from the resolved principal at this moment and
      epoch, and carries exactly the singleton project, operation and purpose. */
  lemma IssuedBinding(cfg: Config, k: Counters, a: Attempt)
    requires Evaluate(cfg, k, a).1.Allow?
    ensures a.resolved.Some?
    ensures var b, p := Evaluate(cfg, k, a).1.binding, a.resolved.value;
            && BuildBinding(cfg.operation, a.request, p, a.now) == Ok(b)
            && b.IntegrityValid(a.request)
            && b.IsValid(a.now, a.epoch)
            && p.IsValid(a.now, a.epoch) && Grants(cfg.operation, a.request, p)
            && SubjectDocument(cfg.operation, a.request, p).effectiveAuthority == Singletons(cfg.operation, a.request)
            && b.subjectChainFingerprint == Sha(SubjectDocument(cfg.operation, a.request, p))
  {
    EffectiveAuthority(cfg.operation, a.request, a.resolved.value);
  }

  /** What a binding says: request and principal by name and fingerprint, the purpose
      derived from the policy bundle, the subject chain with exactly the effective
      authority, and the principal's zone, policy, epoch and end. */
  lemma BindingSays(operation: string, q: Request, p: Principal, issuedAt: int)
    requires BuildBinding(operation, q, p, issuedAt).Ok?
    ensures var b := BuildBinding(operation, q, p, issuedAt).value;
            && b.requestId == q.requestId && b.requestFingerprint == Sha(RequestDoc(q))
            && b.authenticationRef == p.authenticationRef && b.principalRef == p.principalRef
            && b.attestationFingerprint == p.attestation.fingerprint && b.trustZone == p.attestation.zoneId
            && b.operation == operation && b.purpose == q.purpose && b.project == q.project
            && b.policyBundleRef == p.policyBundleRef && b.policyVersion == p.policyVersion
            && b.policyEpoch == p.policyEpoch && b.issuedAt == issuedAt && b.validUntil == p.validUntil
            && b.bindingId == Ref("request-auth", b.fingerprint) && b.IntegrityValid(q)
            && b.purposeBindingFingerprint ==
               Sha(PurposeDoc("pmiri://operation/" + operation, q.purpose, p.policyBundleRef))
            && b.subjectChainFingerprint ==
               Sha(SubjectDoc(p.humanPrincipalRef, p.servicePrincipalRef, p.workloadPrincipalRef,
                              SortedSet(p.delegationGrantRefs), p.attestation.attestationId,
                              "pmiri://operation/" + operation, Ref("purpose", b.purposeBindingFingerprint),
                              IntersectAuthority([map["project" := p.allowedProjects,
                                                      "operation" := p.allowedOperations,
                                                      "purpose" := p.allowedPurposes],
                                                  map["project" := [q.project], "operation" := [operation],
                                                      "purpose" := [q.purpose]]])))
  {
  }

  /** The fingerprint of an intact binding decides its request and every field it was
      taken of; only the binding's id and its own copy of the purpose are outside. */
  lemma IntactBindings(b: Binding, q: Request, c: Binding, r: Request)
    requires b.IntegrityValid(q) && c.IntegrityValid(r) && b.fingerprint == c.fingerprint
    ensures q == r && c == b.(bindingId := c.bindingId, purpose := c.purpose)
  {
  }

  /** An intact binding altered in any other field is no longer intact. */
  lemma AlteredBindingIsRefused(b: Binding, q: Request, c: Binding, r: Request)
    requires b.IntegrityValid(q) && b.fingerprint == c.fingerprint
    requires c != b.(bindingId := c.bindingId, purpose := c.purpose) || r != q
    ensures !c.IntegrityValid(r)
  {
    if c.IntegrityValid(r) { IntactBindings(b, q, c, r); }
  }

  /** What `evaluate` established about the principal behind a binding. */
  ghost predicate Issued(operation: string, request: Request, p: Principal, b: Binding) {
    && BuildBinding(operation, request, p, b.issuedAt) == Ok(b)
    && Grants(operation, request, p)
    && p.IsValid(b.issuedAt, b.policyEpoch)
  }

  /** An issued binding revalidates exactly when the registry now resolves its
      reference to a principal that rebuilds the same binding, the epoch is the
      binding's, and the time lies in the binding's, the principal's and the
      attestation's intervals. */
  lemma RevalidationExact(operation: string, request: Request, p: Principal, b: Binding,
                          resolved: Option<Principal>, epoch: int, now: int)
    requires Issued(operation, request, p, b)
    requires resolved.Some? ==> Genuine(resolved.value)
    ensures Revalidates(operation, resolved, epoch, request, b, now) <==>
            && resolved.Some?
            && BuildBinding(operation, request, resolved.value, b.issuedAt) == Ok(b)
            && epoch == b.policyEpoch
            && Within(b.issuedAt, b.validUntil, now)
            && Within(resolved.value.issuedAt, resolved.value.validUntil, now)
            && Within(resolved.value.attestation.issuedAt, resolved.value.attestation.validUntil, now)
  {
    if resolved.Some? && BuildBinding(operation, request, resolved.value, b.issuedAt) == Ok(b) {
      var q := resolved.value;
      EffectiveAuthority(operation, request, p);
      EffectiveAuthority(operation, request, q);
      assert SubjectDocument(operation, request, p) == SubjectDocument(operation, request, q);
      GenuineRebuilds(q);
    }
  }

  /** With the same principal still resolving, only the epoch and the clock decide. */
  lemma RevalidationOfSamePrincipal(operation: string, request: Request, p: Principal, b: Binding, epoch: int, now: int)
    requires Issued(operation, request, p, b) && Genuine(p)
    ensures Revalidates(operation, Some(p), epoch, request, b, now) <==>
            epoch == b.policyEpoch && b.issuedAt <= now <= p.validUntil && now <= p.attestation.validUntil
  {
    RevalidationExact(operation, request, p, b, Some(p), epoch, now);
  }
}
