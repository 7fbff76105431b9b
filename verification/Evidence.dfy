/** The typed results passed from retrieval to disclosure (`pmiri/models.py`). */
module Evidence {
  import opened Ordering
  import opened Fingerprints

  datatype Coverage = Complete | Partial | Unknown

  datatype Disposition = Supported | Empty | UnknownOrPartial | ConflictPreserved | Degraded

  datatype EvidenceItem = EvidenceItem(evidenceRef: string, sourceId: string, versionId: string, projectId: string,
                                       anchor: string, text: string, fingerprint: string, score: nat,
                                       conflictGroup: Option<string>)

  /** A missing and an empty conflict group are both no group. */
  predicate Grouped(i: EvidenceItem) { i.conflictGroup.Some? && i.conflictGroup.value != "" }

  datatype EvidenceSet = EvidenceSet(request: Request, items: seq<EvidenceItem>, coverage: Coverage,
                                     authorizationLineage: Ref, conflictGroups: seq<string>)
  {
    function Disposition(): Disposition {
      if items == [] then Empty
      else if conflictGroups != [] then ConflictPreserved
      else if coverage == Partial || coverage == Unknown then UnknownOrPartial
      else Supported
    }
  }

  /** `EvidenceSet.disposition`: empty, else conflicted, else as sure as the coverage. */
  lemma DispositionTable(e: EvidenceSet)
    ensures match e.Disposition()
            case Empty => e.items == []
            case ConflictPreserved => e.items != [] && e.conflictGroups != []
            case UnknownOrPartial => e.items != [] && e.conflictGroups == [] && e.coverage != Complete
            case Supported => e.items != [] && e.conflictGroups == [] && e.coverage == Complete
            case Degraded => false
  {
  }

  datatype OmissionReason = ConflictGroupExceedsContextBound | ContextBound

  datatype Omission = Omission(reason: OmissionReason, reference: string)

  /** `ContextArtifact`; its fingerprint is a function of these fields. */
  datatype ContextArtifact = ContextArtifact(bound: nat, text: string, coverage: Coverage, disposition: Disposition,
                                             evidenceRefs: seq<string>, citationRefs: seq<string>,
                                             authorizationLineage: Ref, omissionLedger: seq<Omission>)

  datatype QueryResult = QueryResult(request: Request, disposition: Disposition, coverage: Coverage,
                                     evidence: seq<EvidenceItem>, authorizationLineage: Ref, context: ContextArtifact)

  /** The lineage both retrieval and the empty projection derive from the request. */
  function ReadLineage(r: Request): Ref { Ref("auth", Sha(ReadLineageDoc(r.project, r.purpose, r.requestId))) }
}
