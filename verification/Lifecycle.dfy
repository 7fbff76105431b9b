/** Fetched-content lifecycles (`pmiri/decisions.py`) and the weaker history check
    of `pmiri/policy.py`.  Names outside a vocabulary are kept as `Other`. */
module Lifecycle {
  import opened Ordering

  datatype State = NotApplicable | Quarantined | AdmittedTypedData | Rejected | Discarded | Aborted
      | OtherState(name: string)

  datatype Event = FetchCompleted | AdmissionApproved | RejectedEvent | DiscardedEvent | AbortedEvent
      | OtherEvent(name: string)

  datatype Visibility = Hidden | QuarantineOnly | TypedDataOnly | OtherVisibility(name: string)

  datatype Operation = ProviderCall | ConnectorFetch | AttachmentFetch | ExternalFetch | OtherOperation(name: string)

  datatype Purpose = Retrieval | ContextDelivery | ExternalFetchPurpose | AttachmentImport | ProviderCallPurpose
      | OtherPurpose(name: string)

  /** `LEGAL_TRANSITIONS`. */
  function LegalEvent(from: State, to: State): Option<Event> {
    match (from, to)
    case (NotApplicable, Quarantined) => Some(FetchCompleted)
    case (Quarantined, AdmittedTypedData) => Some(AdmissionApproved)
    case (Quarantined, Rejected) => Some(RejectedEvent)
    case (Quarantined, Discarded) => Some(DiscardedEvent)
    case (Quarantined, Aborted) => Some(AbortedEvent)
    case (AdmittedTypedData, Discarded) => Some(DiscardedEvent)
    case (AdmittedTypedData, Aborted) => Some(AbortedEvent)
    case _ => None
  }

  /** `knownReason` stands for the membership of `reason_class` in its vocabulary. */
  datatype Transition = Transition(sequence: int, from: State, to: State, event: Event, observedAt: int,
                                   knownReason: bool)

  datatype AdmissionPredicate = AdmissionPredicate(explicitOperation: Operation, originBound: bool,
                                                   instructionInfluenceProhibited: bool,
                                                   controlInfluenceProhibited: bool)

  /** The record without its own fingerprint; response fingerprints are opaque values. */
  datatype Record = Record(
    contentId: string, operation: Operation, purpose: Purpose, originBindingRef: string, destinationBindingRef: string,
    responseFingerprint: string, terminalResponseFingerprint: string, observedContentType: string,
    responseSizeBytes: int,
    initialClassification: string,
    historyStartState: State, historyTerminalState: State, admissionState: State, retrievalVisibility: Visibility,
    controlInfluenceProhibited: bool, admissionPredicate: Option<AdmissionPredicate>,
    typedDataSchemaRef: Option<string>, typedDataFingerprint: Option<string>, transitions: seq<Transition>)

  /** A record with the record its fingerprint was taken of. */
  datatype Sealed<T> = Sealed(body: T, seal: T)

  function VisibilityOf(s: State): Visibility {
    match s
    case Quarantined => QuarantineOnly
    case AdmittedTypedData => TypedDataOnly
    case _ => Hidden
  }

  predicate Present(o: Option<string>) { o.Some? && o.value != "" }

  /** Everything `validate_lifecycle` checks before the transitions. */
  predicate HeaderOk(x: Sealed<Record>) {
    var r := x.body;
    && r.contentId != "" && r.originBindingRef != "" && r.destinationBindingRef != ""
    && r.observedContentType != "" && r.initialClassification != ""
    && !r.operation.OtherOperation? && !r.purpose.OtherPurpose?
    && r.historyStartState == NotApplicable && !r.historyTerminalState.OtherState?
    && r.admissionState == r.historyTerminalState
    && r.terminalResponseFingerprint == r.responseFingerprint
    && r.responseSizeBytes >= 0 && r.controlInfluenceProhibited
    && x.seal == x.body
    && if r.historyTerminalState == NotApplicable then
         r.retrievalVisibility == Hidden && r.admissionPredicate.None? && r.typedDataSchemaRef.None?
           && r.typedDataFingerprint.None?
       else
         && r.admissionPredicate.Some?
         && var p := r.admissionPredicate.value;
         && p.explicitOperation == r.operation && p.originBound && p.instructionInfluenceProhibited
         && p.controlInfluenceProhibited
         && r.retrievalVisibility == VisibilityOf(r.historyTerminalState)
         && if r.historyTerminalState == AdmittedTypedData then
              Present(r.typedDataSchemaRef) && Present(r.typedDataFingerprint)
            else r.typedDataSchemaRef.None? && r.typedDataFingerprint.None?
  }

  function StateBefore(ts: seq<Transition>, i: nat): State
    requires i <= |ts|
  {
    if i == 0 then NotApplicable else ts[i - 1].to
  }

  /** A connected path of legal transitions from NOT_APPLICABLE, numbered and in
      time order. */
  predicate LegalHistory(ts: seq<Transition>) { forall i :: 0 <= i < |ts| ==> LegalStep(ts, i) }

  predicate LegalStep(ts: seq<Transition>, i: nat)
    requires i < |ts|
  {
    && ts[i].sequence == i && ts[i].from == StateBefore(ts, i) && ts[i].knownReason
    && LegalEvent(ts[i].from, ts[i].to) == Some(ts[i].event)
    && (i > 0 ==> ts[i - 1].observedAt <= ts[i].observedAt)
  }

  predicate Accepted(x: Sealed<Record>) {
    && HeaderOk(x)
    && LegalHistory(x.body.transitions)
    && (x.body.historyTerminalState != NotApplicable ==> x.body.transitions != [])
    && (x.body.transitions != [] ==>
        StateBefore(x.body.transitions, |x.body.transitions|) == x.body.historyTerminalState)
  }

  /** `validate_lifecycle`. */
  method ValidateLifecycle(x: Sealed<Record>) returns (ok: bool)
    ensures ok == Accepted(x)
  {
    if !HeaderOk(x) { return false; }
    var ts := x.body.transitions;
    var previous := NotApplicable;
    var previousTime: Option<int> := None;
    for i := 0 to |ts|
      invariant LegalHistory(ts[..i])
      invariant previous == StateBefore(ts, i)
      invariant previousTime == if i == 0 then None else Some(ts[i - 1].observedAt)
    {
      var t := ts[i];
      HistoryPrefix(ts, i);
      if t.sequence != i || t.from != previous { return false; }
      if !t.knownReason { return false; }
      if previousTime.Some? && t.observedAt < previousTime.value { return false; }
      if LegalEvent(t.from, t.to) != Some(t.event) { return false; }
      previous := t.to;
      previousTime := Some(t.observedAt);
    }
    assert ts[..|ts|] == ts;
    if x.body.historyTerminalState != NotApplicable && ts == [] { return false; }
    if ts != [] && previous != x.body.historyTerminalState { return false; }
    return true;
  }

  lemma HistoryPrefix(ts: seq<Transition>, i: nat)
    requires i < |ts| && LegalHistory(ts[..i])
    ensures LegalHistory(ts[..i + 1]) <==> LegalStep(ts, i)
    ensures LegalHistory(ts) ==> LegalStep(ts, i)
  {
    var longer := ts[..i + 1];
    SamePrefixStep(ts, i + 1, i);
    forall k: nat | k < i ensures LegalStep(longer, k) {
      SamePrefixStep(ts, i, k);
      SamePrefixStep(ts, i + 1, k);
      assert LegalStep(ts[..i], k);
    }
  }

  lemma SamePrefixStep(ts: seq<Transition>, n: nat, k: nat)
    requires k < n <= |ts|
    ensures LegalStep(ts[..n], k) <==> LegalStep(ts, k)
  {
  }

  // ----- which histories there are

  /** The states a history goes through. */
  function Trace(ts: seq<Transition>): seq<State> { seq(|ts|, i requires 0 <= i < |ts| => ts[i].to) }

  /** The eight complete paths of the transition system. */
  predicate LegalTrace(s: seq<State>) {
    s in {[], [Quarantined], [Quarantined, AdmittedTypedData], [Quarantined, Rejected], [Quarantined, Discarded],
          [Quarantined, Aborted], [Quarantined, AdmittedTypedData, Discarded],
            [Quarantined, AdmittedTypedData, Aborted]}
  }

  /** Every legal transition climbs, so the system has no cycle and depth three. */
  function Rank(s: State): (n: nat)
    ensures n <= 3
  {
    match s
    case NotApplicable => 0
    case Quarantined => 1
    case AdmittedTypedData => 2
    case _ => 3
  }

  lemma {:induction false} RankGrows(ts: seq<Transition>, n: nat)
    requires LegalHistory(ts) && n <= |ts|
    ensures n <= Rank(StateBefore(ts, n))
  {
    if n > 0 {
      RankGrows(ts, n - 1);
      assert LegalStep(ts, n - 1);
    }
  }

  lemma HistoryIsShort(ts: seq<Transition>)
    requires LegalHistory(ts)
    ensures |ts| <= 3
    ensures |ts| > 0 ==> ts[0].to == Quarantined
    ensures |ts| > 1 ==> ts[1].to in {AdmittedTypedData, Rejected, Discarded, Aborted}
    ensures |ts| > 2 ==> ts[1].to == AdmittedTypedData && ts[2].to in {Discarded, Aborted}
  {
    assert |ts| > 0 ==> LegalStep(ts, 0);
    assert |ts| > 1 ==> LegalStep(ts, 1);
    assert |ts| > 2 ==> LegalStep(ts, 2);
    RankGrows(ts, |ts|);
  }

  /** The history that goes through the given states at the given times. */
  function HistoryAlong(s: seq<State>, times: seq<int>): seq<Transition>
    requires |s| == |times|
  {
    seq(|s|, i requires 0 <= i < |s| =>
      var from := if i == 0 then NotApplicable else s[i - 1];
      var event := LegalEvent(from, s[i]);
      Transition(i, from, s[i], if event.Some? then event.value else OtherEvent(""), times[i], true))
  }

  /** Legal histories go along one of the eight paths. */
  lemma LegalHistoriesFollowTheEight(ts: seq<Transition>)
    requires LegalHistory(ts)
    ensures LegalTrace(Trace(ts))
  {
    HistoryIsShort(ts);
    var t := Trace(ts);
    if |ts| == 0 { assert t == []; }
    else if |ts| == 1 { assert t == [Quarantined]; }
    else if |ts| == 2 { assert t == [Quarantined, ts[1].to]; }
    else { assert t == [Quarantined, AdmittedTypedData, ts[2].to]; }
  }

  /** Along each of the eight there is a legal history at any times in order. */
  lemma TheEightAreLegal(s: seq<State>, times: seq<int>)
    requires LegalTrace(s) && |s| == |times|
    requires forall i, j :: 0 <= i < j < |times| ==> times[i] <= times[j]
    ensures LegalHistory(HistoryAlong(s, times)) && Trace(HistoryAlong(s, times)) == s
  {
    var along := HistoryAlong(s, times);
    forall i | 0 <= i < |s| ensures LegalEvent(StateBefore(along, i), s[i]).Some? {
      TraceSteps(s, i);
    }
  }

  lemma TraceSteps(s: seq<State>, i: nat)
    requires LegalTrace(s) && i < |s|
    ensures LegalEvent(if i == 0 then NotApplicable else s[i - 1], s[i]).Some?
  {
  }

  predicate ConnectedHistory(ts: seq<Transition>, terminal: State) {
    && (forall i :: 0 <= i < |ts| ==> ts[i].sequence == i && ts[i].from == StateBefore(ts, i))
    && ts != [] && StateBefore(ts, |ts|) == terminal
  }

  /** `validate_transition_history`. */
  method ValidateTransitionHistory(ts: seq<Transition>, terminal: State) returns (ok: bool)
    ensures ok == ConnectedHistory(ts, terminal)
  {
    var previous := NotApplicable;
    for i := 0 to |ts|
      invariant forall k :: 0 <= k < i ==> ts[k].sequence == k && ts[k].from == StateBefore(ts, k)
      invariant previous == StateBefore(ts, i)
    {
      if ts[i].sequence != i || ts[i].from != previous { return false; }
      previous := ts[i].to;
    }
    return ts != [] && previous == terminal;
  }

  lemma LegalIsConnected(ts: seq<Transition>)
    requires LegalHistory(ts)
    ensures forall i :: 0 <= i < |ts| ==> ts[i].sequence == i && ts[i].from == StateBefore(ts, i)
  {
    forall i | 0 <= i < |ts| ensures ts[i].sequence == i && ts[i].from == StateBefore(ts, i) {
      assert LegalStep(ts, i);
    }
  }

  /** Every accepted record: at most three transitions; empty exactly when nothing
      was fetched; typed data is visible exactly after quarantine then admission;
      and a nonempty history also passes `validate_transition_history`. */
  lemma AcceptedLifecycle(x: Sealed<Record>)
    requires Accepted(x)
    ensures var r := x.body;
            && |r.transitions| <= 3 && LegalTrace(Trace(r.transitions))
            && (r.transitions == [] <==> r.historyTerminalState == NotApplicable)
            && (r.retrievalVisibility == TypedDataOnly <==> Trace(r.transitions) == [Quarantined, AdmittedTypedData])
            && (r.transitions != [] ==> ConnectedHistory(r.transitions, r.historyTerminalState))
  {
    var r := x.body;
    HistoryIsShort(r.transitions);
    LegalHistoriesFollowTheEight(r.transitions);
    var s := Trace(r.transitions);
    if r.transitions != [] { assert s[|s| - 1] == r.historyTerminalState; }
    LegalIsConnected(r.transitions);
    assert s == [Quarantined, AdmittedTypedData] ==> s[1] == AdmittedTypedData && |s| == 2;
    if r.historyTerminalState == AdmittedTypedData && r.transitions != [] {
      assert |s| == 2;
      assert s == [Quarantined, AdmittedTypedData];
    }
  }

  function Times(ts: seq<Transition>): seq<int> { seq(|ts|, i requires 0 <= i < |ts| => ts[i].observedAt) }

  ghost predicate InTimeOrder(times: seq<int>) { forall i, j :: 0 <= i < j < |times| ==> times[i] <= times[j] }

  lemma {:induction false} TimesInOrder(ts: seq<Transition>, i: nat, j: nat)
    requires LegalHistory(ts) && i < j < |ts|
    ensures ts[i].observedAt <= ts[j].observedAt
  {
    assert LegalStep(ts, j);
    if i < j - 1 { TimesInOrder(ts, i, j - 1); }
  }

  /** Legal histories are exactly the eight traces at times in order: numbering, states
      and events follow from the trace. */
  lemma LegalExactly(ts: seq<Transition>)
    ensures LegalHistory(ts) <==>
            LegalTrace(Trace(ts)) && InTimeOrder(Times(ts)) && ts == HistoryAlong(Trace(ts), Times(ts))
  {
    var s, times := Trace(ts), Times(ts);
    if LegalHistory(ts) {
      LegalHistoriesFollowTheEight(ts);
      forall i, j | 0 <= i < j < |times| ensures times[i] <= times[j] { TimesInOrder(ts, i, j); }
      forall i | 0 <= i < |ts| ensures ts[i] == HistoryAlong(s, times)[i] { assert LegalStep(ts, i); }
    }
    if LegalTrace(s) && InTimeOrder(times) && ts == HistoryAlong(s, times) { TheEightAreLegal(s, times); }
  }

  /** The event of each legal move. */
  lemma EventTable(from: State, to: State)
    ensures LegalEvent(from, to) ==
            if from == NotApplicable && to == Quarantined then Some(FetchCompleted)
            else if from == Quarantined && to == AdmittedTypedData then Some(AdmissionApproved)
            else if from == Quarantined && to == Rejected then Some(RejectedEvent)
            else if (from == Quarantined || from == AdmittedTypedData) && to == Discarded then Some(DiscardedEvent)
            else if (from == Quarantined || from == AdmittedTypedData) && to == Aborted then Some(AbortedEvent)
            else None
  {
  }

  /** The validator, from the record's fields alone. */
  lemma AcceptedExactly(x: Sealed<Record>)
    ensures Accepted(x) <==>
            var r := x.body;
            var s := Trace(r.transitions);
            && x.seal == r
            && "" !in [r.contentId, r.originBindingRef, r.destinationBindingRef, r.observedContentType,
                       r.initialClassification]
            && r.operation in [ProviderCall, ConnectorFetch, AttachmentFetch, ExternalFetch]
            && r.purpose in [Retrieval, ContextDelivery, ExternalFetchPurpose, AttachmentImport, ProviderCallPurpose]
            && r.historyStartState == NotApplicable && r.admissionState == r.historyTerminalState
            && r.terminalResponseFingerprint == r.responseFingerprint && r.responseSizeBytes >= 0
            && r.controlInfluenceProhibited
            && LegalTrace(s) && InTimeOrder(Times(r.transitions))
               && r.transitions == HistoryAlong(s, Times(r.transitions))
            && r.historyTerminalState == (if s == [] then NotApplicable else s[|s| - 1])
            && match r.historyTerminalState
               case NotApplicable => r.retrievalVisibility == Hidden && NoPredicate(r) && NoTypedData(r)
               case Quarantined => r.retrievalVisibility == QuarantineOnly && FullPredicate(r) && NoTypedData(r)
               case AdmittedTypedData =>
                 && r.retrievalVisibility == TypedDataOnly && FullPredicate(r)
                 && r.typedDataSchemaRef.Some? && r.typedDataSchemaRef.value != ""
                 && r.typedDataFingerprint.Some? && r.typedDataFingerprint.value != ""
               case _ => r.retrievalVisibility == Hidden && FullPredicate(r) && NoTypedData(r)
  {
    var r := x.body;
    LegalExactly(r.transitions);
    if LegalHistory(r.transitions) { HistoryIsShort(r.transitions); }
  }

  predicate NoPredicate(r: Record) { r.admissionPredicate == None }

  predicate NoTypedData(r: Record) { r.typedDataSchemaRef == None && r.typedDataFingerprint == None }

  /** The admission predicate is there, for the record's operation, with every guard up. */
  predicate FullPredicate(r: Record) { r.admissionPredicate == Some(AdmissionPredicate(r.operation, true, true, true)) }

  /** The converse fails: the weaker check takes an admission without quarantine. */
  lemma ConnectedIsNotLegal()
    ensures var ts := [Transition(0, NotApplicable, AdmittedTypedData, OtherEvent("x"), 0, false)];
            ConnectedHistory(ts, AdmittedTypedData) && !LegalHistory(ts)
  {
    var ts := [Transition(0, NotApplicable, AdmittedTypedData, OtherEvent("x"), 0, false)];
    assert ts[0].from == StateBefore(ts, 0);
    assert !LegalStep(ts, 0);
  }
}
