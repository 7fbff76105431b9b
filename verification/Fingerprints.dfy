/** Requests, and the fingerprints the program takes of its records.

    `sha256_json` is modelled as an injective function of the record it is taken
    of: a digest is the record under the constructor `Sha`.  Identifiers cut from
    a digest (`fingerprint[:32]` behind a prefix) keep that injectivity. */
module Fingerprints {
  import opened Ordering

  /** `QueryRequest`. */
  datatype Request = Request(requestId: string, project: string, query: string, purpose: string, maxResults: int)

  /** What `str.strip` removes. */
  predicate IsSpace(c: char) {
    var n := c as int;
    9 <= n <= 13 || 0x1C <= n <= 0x20 || n in {0x85, 0xA0, 0x1680, 0x2028, 0x2029, 0x202F, 0x205F, 0x3000}
      || 0x2000 <= n <= 0x200A
  }

  /** Blank, tab and line ends are space, no printable ASCII character is. */
  lemma SpaceCharacters(c: char)
    ensures IsSpace(' ') && IsSpace('\t') && IsSpace('\n') && IsSpace('\r')
    ensures '!' <= c <= '~' ==> !IsSpace(c)
  {
  }

  /** `QueryRequest.normalized` raises unless this holds. */
  predicate WellFormed(r: Request) {
    && r.requestId != "" && r.project != ""
    && (exists i :: 0 <= i < |r.query| && !IsSpace(r.query[i]))
    && 1 <= r.maxResults <= 1000
  }

  type Scope = map<string, seq<string>>

  datatype Ref = Ref(kind: string, digest: Digest)

  datatype Digest = Sha(doc: Document)

  datatype Document =
    | RequestDoc(request: Request)
    | AttestationDoc(principalRef: string, zoneId: string, issuerRef: string, evidenceRefs: seq<string>,
                     issuedAt: int, validUntil: int, status: string)
    | PrincipalDoc(authenticationRef: string, principalRef: string, principalType: string, servicePrincipalRef: string,
                   workloadPrincipalRef: Option<string>, humanPrincipalRef: Option<string>, attestation: Digest,
                   allowedProjects: seq<string>, allowedOperations: seq<string>, allowedPurposes: seq<string>,
                   delegationGrantRefs: seq<string>, policyBundleRef: string, policyVersion: string, policyEpoch: int,
                   issuedAt: int, validUntil: int, status: string)
    | PurposeDoc(operationRef: string, recognizedPurpose: string, derivationRef: string)
    | SubjectDoc(humanPrincipalRef: Option<string>, servicePrincipalRef: string, workloadPrincipalRef: Option<string>,
                 delegationGrantRefs: seq<string>, attestationRef: Ref, operationRef: string, purposeBindingRef: Ref,
                 effectiveAuthority: Scope)
    | BindingDoc(request: Request, authenticationRef: string, principalRef: string, subjectChain: Digest,
                 attestation: Digest, trustZone: string, purposeBinding: Digest, operation: string, project: string,
                 policyBundleRef: string, policyVersion: string, policyEpoch: int, issuedAt: int, validUntil: int)
    | LineageDoc(requestFingerprint: Digest, scope: string)
    | ReadLineageDoc(project: string, purpose: string, requestId: string)
}
