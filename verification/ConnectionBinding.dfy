/** Connection bindings (`pmiri/network.py`) and the second, independent cascade
    over the same observations (`pmiri/policy.py`, `pmiri/gate_d.py`).

    URL parsing has happened: a `Target` holds the canonical components.  Address
    parsing and classification are a parameter; the one law used of them is that
    the canonical spelling of an address parses to itself. */
module ConnectionBinding {
  import opened Ordering

  datatype Status = AllowlistedPublic | DeniedPrivate | DeniedReserved | DeniedUnallowlisted | InvalidAddress

  datatype Family = IPv4 | IPv6

  /** `ipaddress.ip_address`: the canonical spelling and the family. */
  datatype Parsed = Parsed(canonical: string, family: Family)

  datatype Addresses = Addresses(parse: string -> Option<Parsed>, classify: string -> Status)

  ghost predicate Lawful(lib: Addresses) {
    forall a: string :: lib.parse(a).Some? ==> lib.parse(lib.parse(a).value.canonical) == lib.parse(a)
  }

  datatype Target = Target(host: string, path: string, query: Option<string>)

  /** `NormalizedTarget.authority`. */
  function Authority(t: Target): string {
    if ':' in t.host && t.host[0] != '[' then "[" + t.host + "]" else t.host
  }

  /** What `normalize_url` leaves of a host: not empty, not bracketed. */
  predicate HostOk(t: Target) { t.host != "" && t.host[0] != '[' }

  // ----- the record

  datatype EntryId = EntryId(target: Target, index: nat)

  datatype Entry = Entry(id: EntryId, ip: string, family: Family, status: Status, observedAt: int)

  datatype Selected = Selected(entryRef: EntryId, ip: string, family: Family, status: Status)

  datatype SetStatus = AllAllowlistedPublic | DeniedMixed

  datatype BindingStatus = Validated | Denied | Stale

  datatype Match = Matched | Mismatched | DeniedResult

  datatype ProxyMode = Direct | ExplicitProxy | DenyProxy

  datatype Proxy = Proxy(mode: ProxyMode, identity: Option<string>)

  /** The two TLS fingerprints are taken of the authority and the status. */
  datatype Tls = Tls(sni: string, certificate: (string, Match), identityStatus: Match, expectedIdentity: string,
                     verifiedIdentity: string, identityBinding: (string, Match))

  datatype EventType = InitialResolution | PolicyEpochChange | OtherEvent(name: string)

  datatype Event = Event(sequence: int, kind: EventType, observedAt: int, result: Match, priorConnectionEpoch: int,
                         connectionEpoch: int, priorInvalidationEpoch: int, invalidationEpoch: int)

  datatype Body = Body(target: Target, destinationIdentity: string, authority: string, addresses: seq<Entry>,
                       setStatus: SetStatus, selected: Option<Selected>, proxy: Proxy, tls: Tls, events: seq<Event>,
                       connectionEpoch: int, invalidationEpoch: int, bindingStatus: BindingStatus)

  /** The record; its fingerprint is taken of the rest of it. */
  datatype Record = Record(body: Body, fingerprint: Body)

  // ----- validate_connection_binding

  function ExpectedSni(authority: string): string {
    if authority != "" && authority[0] == '[' && authority[|authority| - 1] == ']' && |authority| > 1
    then authority[1..|authority| - 1] else authority
  }

  predicate EntryOk(lib: Addresses, e: Entry) {
    match lib.parse(e.ip)
    case None => e.status == DeniedUnallowlisted && e.family == IPv4
    case Some(p) => e.ip == p.canonical && e.family == p.family && e.status == lib.classify(e.ip)
  }

  function SetStatusOf(entries: seq<Entry>): SetStatus {
    if forall i :: 0 <= i < |entries| ==> entries[i].status == AllowlistedPublic then AllAllowlistedPublic
    else DeniedMixed
  }

  /** The first entry with the given id, as `next(...)` finds it. */
  function FindEntry(entries: seq<Entry>, id: EntryId): Option<Entry> {
    if entries == [] then None else if entries[0].id == id then Some(entries[0]) else FindEntry(entries[1..], id)
  }

  predicate SelectionOk(entries: seq<Entry>, selected: Option<Selected>) {
    if SetStatusOf(entries) == AllAllowlistedPublic then
      && selected.Some?
      && var found := FindEntry(entries, selected.value.entryRef);
      && found.Some?
      && selected.value.ip == found.value.ip && selected.value.family == found.value.family
      && selected.value.status == found.value.status
    else
      selected.Some? ==>
        && selected.value.status == AllowlistedPublic
        && exists i :: 0 <= i < |entries| && entries[i].status == AllowlistedPublic
  }

  predicate ProxyOk(p: Proxy) {
    if p.mode == ExplicitProxy then p.identity.Some? && p.identity.value != "" else p.identity.None?
  }

  predicate TlsOk(b: Body) {
    var t := b.tls;
    && t.identityStatus != DeniedResult
    && t.sni == ExpectedSni(b.authority) && t.expectedIdentity == b.destinationIdentity
    && t.certificate == (b.authority, t.identityStatus) && t.identityBinding == (b.authority, t.identityStatus)
    && (t.identityStatus == Matched <==> t.verifiedIdentity == t.expectedIdentity)
  }

  predicate EventOk(events: seq<Event>, i: nat)
    requires i < |events|
  {
    var e := events[i];
    && e.sequence == i
    && (i == 0 ==> e.kind == InitialResolution)
    && (i > 0 ==> events[i - 1].observedAt <= e.observedAt)
    && match e.kind
       case InitialResolution =>
         e.priorConnectionEpoch == e.connectionEpoch && e.priorInvalidationEpoch == e.invalidationEpoch
       case PolicyEpochChange =>
         e.connectionEpoch == e.priorConnectionEpoch && e.invalidationEpoch == e.priorInvalidationEpoch + 1
       case OtherEvent(_) =>
         e.connectionEpoch == e.priorConnectionEpoch + 1 && e.invalidationEpoch == e.priorInvalidationEpoch
  }

  predicate Valid(lib: Addresses, r: Record) {
    var b := r.body;
    && b.destinationIdentity != ""
    && r.fingerprint == b
    && b.connectionEpoch >= 0 && b.invalidationEpoch >= 0
    && b.addresses != [] && (forall i :: 0 <= i < |b.addresses| ==> EntryOk(lib, b.addresses[i]))
    && b.setStatus == SetStatusOf(b.addresses)
    && SelectionOk(b.addresses, b.selected)
    && ProxyOk(b.proxy)
    && TlsOk(b)
    && b.events != [] && (forall i :: 0 <= i < |b.events| ==> EventOk(b.events, i))
    && b.connectionEpoch == b.events[|b.events| - 1].connectionEpoch
    && b.invalidationEpoch == b.events[|b.events| - 1].invalidationEpoch
    && (b.bindingStatus == Validated ==>
          && b.setStatus == AllAllowlistedPublic && b.selected.Some? && b.tls.identityStatus == Matched
          && b.events[|b.events| - 1].result == Matched)
  }

  /** `validate_connection_binding`: two loops, over entries and over events. */
  method ValidateConnectionBinding(lib: Addresses, r: Record) returns (ok: bool)
    ensures ok == Valid(lib, r)
  {
    var b := r.body;
    if b.destinationIdentity == "" { return false; }
    if r.fingerprint != b { return false; }
    if b.connectionEpoch < 0 || b.invalidationEpoch < 0 { return false; }
    if b.addresses == [] { return false; }
    var allPublic, somePublic := true, false;
    for i := 0 to |b.addresses|
      invariant forall k :: 0 <= k < i ==> EntryOk(lib, b.addresses[k])
      invariant allPublic == forall k :: 0 <= k < i ==> b.addresses[k].status == AllowlistedPublic
      invariant somePublic == exists k :: 0 <= k < i && b.addresses[k].status == AllowlistedPublic
    {
      var e, parsed := b.addresses[i], lib.parse(b.addresses[i].ip);
      if parsed.None? {
        if e.status != DeniedUnallowlisted || e.family != IPv4 { return false; }
      } else if e.ip != parsed.value.canonical || e.family != parsed.value.family || e.status != lib.classify(e.ip) {
        return false;
      }
      allPublic := allPublic && e.status == AllowlistedPublic;
      somePublic := somePublic || e.status == AllowlistedPublic;
    }
    if b.setStatus != if allPublic then AllAllowlistedPublic else DeniedMixed { return false; }
    if allPublic {
      if b.selected.None? { return false; }
      var found := FindEntry(b.addresses, b.selected.value.entryRef);
      if found.None? { return false; }
      if b.selected.value != Selected(b.selected.value.entryRef, found.value.ip, found.value.family,
                                      found.value.status) {
        return false;
      }
    } else if b.selected.Some? {
      if b.selected.value.status != AllowlistedPublic || !somePublic { return false; }
    }
    if !ProxyOk(b.proxy) || !TlsOk(b) { return false; }
    if b.events == [] { return false; }
    var previousTime: Option<int> := None;
    for i := 0 to |b.events|
      invariant forall k :: 0 <= k < i ==> EventOk(b.events, k)
      invariant previousTime == if i == 0 then None else Some(b.events[i - 1].observedAt)
    {
      var e := b.events[i];
      if e.sequence != i { assert !EventOk(b.events, i); return false; }
      if i == 0 && e.kind != InitialResolution { assert !EventOk(b.events, i); return false; }
      if previousTime.Some? && e.observedAt < previousTime.value { assert !EventOk(b.events, i); return false; }
      previousTime := Some(e.observedAt);
      if e.kind == InitialResolution {
        if e.priorConnectionEpoch != e.connectionEpoch || e.priorInvalidationEpoch != e.invalidationEpoch {
          assert !EventOk(b.events, i);
          return false;
        }
      } else if e.kind == PolicyEpochChange {
        if e.connectionEpoch != e.priorConnectionEpoch || e.invalidationEpoch != e.priorInvalidationEpoch + 1 {
          assert !EventOk(b.events, i);
          return false;
        }
      } else if e.connectionEpoch != e.priorConnectionEpoch + 1 || e.invalidationEpoch != e.priorInvalidationEpoch {
        assert !EventOk(b.events, i);
        return false;
      }
    }
    var last := b.events[|b.events| - 1];
    if b.connectionEpoch != last.connectionEpoch || b.invalidationEpoch != last.invalidationEpoch { return false; }
    if b.bindingStatus == Validated {
      return allPublic && b.selected.Some? && b.tls.identityStatus == Matched && last.result == Matched;
    }
    return true;
  }

  // ----- what the validator lets through

  lemma {:induction false} EventTimes(events: seq<Event>, i: nat, j: nat)
    requires i < j < |events| && forall k :: 0 <= k < |events| ==> EventOk(events, k)
    ensures events[i].observedAt <= events[j].observedAt
  {
    assert EventOk(events, j);
    if i < j - 1 { EventTimes(events, i, j - 1); }
  }

  /** One event, from its fields: numbered by its place, the first one the initial
      resolution, which moves no epoch; a policy change moves the invalidation epoch by
      one and every other event the connection epoch by one. */
  predicate ProperEvent(e: Event, place: nat) {
    && e.sequence == place && (place == 0 ==> e.kind == InitialResolution)
    && e.connectionEpoch - e.priorConnectionEpoch == (if e.kind.OtherEvent? then 1 else 0)
    && e.invalidationEpoch - e.priorInvalidationEpoch == (if e.kind == PolicyEpochChange then 1 else 0)
  }

  lemma EventsExactly(events: seq<Event>)
    ensures (forall k :: 0 <= k < |events| ==> EventOk(events, k)) <==>
            && (forall k :: 0 <= k < |events| ==> ProperEvent(events[k], k))
            && (forall i, j :: 0 <= i < j < |events| ==> events[i].observedAt <= events[j].observedAt)
  {
    if forall k :: 0 <= k < |events| ==> EventOk(events, k) {
      forall i, j | 0 <= i < j < |events|
        ensures events[i].observedAt <= events[j].observedAt { EventTimes(events, i, j); }
      forall k | 0 <= k < |events| ensures ProperEvent(events[k], k) { assert EventOk(events, k); }
    }
    if (forall k :: 0 <= k < |events| ==> ProperEvent(events[k], k))
       && (forall i, j :: 0 <= i < j < |events| ==> events[i].observedAt <= events[j].observedAt) {
      forall k | 0 <= k < |events| ensures EventOk(events, k) { assert ProperEvent(events[k], k); }
    }
  }

  /** The first entry with an id. */
  lemma {:induction false} FoundEntry(entries: seq<Entry>, id: EntryId)
    ensures FindEntry(entries, id) == None <==> forall i :: 0 <= i < |entries| ==> entries[i].id != id
    ensures FindEntry(entries, id).Some? ==>
            exists i :: FirstWith(entries, id, i) && entries[i] == FindEntry(entries, id).value
  {
    if entries != [] {
      FoundEntry(entries[1..], id);
      if entries[0].id == id {
        assert FirstWith(entries, id, 0);
      } else if FindEntry(entries[1..], id).Some? {
        var i :| FirstWith(entries[1..], id, i) && entries[1..][i] == FindEntry(entries[1..], id).value;
        assert FirstWith(entries, id, i + 1);
      }
    }
  }

  ghost predicate FirstWith(entries: seq<Entry>, id: EntryId, i: int) {
    0 <= i < |entries| && entries[i].id == id && forall k :: 0 <= k < i ==> entries[k].id != id
  }

  /** Every address is classified as the library classifies it, and the set status says
      whether all of them are public. */
  ghost predicate AddressesSound(lib: Addresses, b: Body) {
    && b.addresses != []
    && (forall i :: 0 <= i < |b.addresses| ==>
          match lib.parse(b.addresses[i].ip)
          case None => b.addresses[i].status == DeniedUnallowlisted && b.addresses[i].family == IPv4
          case Some(p) =>
            && b.addresses[i].ip == p.canonical && b.addresses[i].family == p.family
            && b.addresses[i].status == lib.classify(p.canonical))
    && (b.setStatus == AllAllowlistedPublic <==>
        forall i :: 0 <= i < |b.addresses| ==> b.addresses[i].status == AllowlistedPublic)
  }

  /** On an all-public set a target is selected, and it is the first entry with its id;
      otherwise a selected target, if there is one, is public and so is some entry. */
  ghost predicate SelectionSound(b: Body) {
    if b.setStatus == AllAllowlistedPublic then
      && b.selected.Some?
      && exists i :: FirstWith(b.addresses, b.selected.value.entryRef, i)
                     && b.selected.value.ip == b.addresses[i].ip && b.selected.value.family == b.addresses[i].family
                     && b.selected.value.status == b.addresses[i].status
    else
      b.selected.Some? ==>
        && b.selected.value.status == AllowlistedPublic
        && exists i :: 0 <= i < |b.addresses| && b.addresses[i].status == AllowlistedPublic
  }

  /** The host name is the authority without its brackets, the identities are those of
      the destination, and a mismatch is a mismatch. */
  ghost predicate TlsSound(b: Body) {
    var a := b.authority;
    && b.tls.identityStatus in [Matched, Mismatched] && b.tls.expectedIdentity == b.destinationIdentity
    && (b.tls.identityStatus == Matched <==> b.tls.verifiedIdentity == b.destinationIdentity)
    && b.tls.certificate == (a, b.tls.identityStatus) && b.tls.identityBinding == (a, b.tls.identityStatus)
    && if |a| > 1 && a[0] == '[' && a[|a| - 1] == ']' then a == "[" + b.tls.sni + "]" else a == b.tls.sni
  }

  ghost predicate EventsSound(b: Body) {
    && b.events != [] && (forall k :: 0 <= k < |b.events| ==> ProperEvent(b.events[k], k))
    && (forall i, j :: 0 <= i < j < |b.events| ==> b.events[i].observedAt <= b.events[j].observedAt)
    && b.connectionEpoch == b.events[|b.events| - 1].connectionEpoch >= 0
    && b.invalidationEpoch == b.events[|b.events| - 1].invalidationEpoch >= 0
  }

  /** The validator accepts exactly the records sealed by their own fingerprint whose
      addresses, selection, identities and events are sound, and that are VALIDATED only
      on an all-public set with matching identity and a matching last event. */
  lemma ValidExactly(lib: Addresses, r: Record)
    ensures Valid(lib, r) <==>
            var b := r.body;
            && r.fingerprint == b && b.destinationIdentity != ""
            && AddressesSound(lib, b) && SelectionSound(b) && TlsSound(b) && EventsSound(b)
            && (if b.proxy.mode == ExplicitProxy then b.proxy.identity.Some? && b.proxy.identity != Some("")
                else b.proxy.identity == None)
            && (b.bindingStatus == Validated ==>
                  && b.setStatus == AllAllowlistedPublic && b.tls.identityStatus == Matched
                  && b.events[|b.events| - 1].result == Matched)
  {
    var b := r.body;
    EventsExactly(b.events);
    AddressesExactly(lib, b);
    if AddressesSound(lib, b) { SelectionExactly(b); }
    TlsExactly(b);
  }

  lemma AddressesExactly(lib: Addresses, b: Body)
    ensures AddressesSound(lib, b) <==>
            && b.addresses != [] && (forall i :: 0 <= i < |b.addresses| ==> EntryOk(lib, b.addresses[i]))
            && b.setStatus == SetStatusOf(b.addresses)
  {
    if forall i :: 0 <= i < |b.addresses| ==> EntryOk(lib, b.addresses[i]) {
      forall i | 0 <= i < |b.addresses|
        ensures match lib.parse(b.addresses[i].ip)
                case None => b.addresses[i].status == DeniedUnallowlisted && b.addresses[i].family == IPv4
                case Some(p) =>
                  && b.addresses[i].ip == p.canonical && b.addresses[i].family == p.family
                  && b.addresses[i].status == lib.classify(p.canonical)
      {
        assert EntryOk(lib, b.addresses[i]);
      }
    }
  }

  lemma SelectionExactly(b: Body)
    requires b.addresses != [] && b.setStatus == SetStatusOf(b.addresses)
    ensures SelectionSound(b) <==> SelectionOk(b.addresses, b.selected)
  {
    if b.selected.Some? {
      var id := b.selected.value.entryRef;
      FoundEntry(b.addresses, id);
      if i :| FirstWith(b.addresses, id, i) { assert b.addresses[i].id == id; }
    }
  }

  lemma TlsExactly(b: Body)
    ensures TlsSound(b) <==> TlsOk(b)
  {
    var a := b.authority;
    if |a| > 1 && a[0] == '[' && a[|a| - 1] == ']' {
      assert a == "[" + a[1..|a| - 1] + "]";
      assert ("[" + b.tls.sni + "]")[1..|b.tls.sni| + 1] == b.tls.sni;
    }
  }

  // ----- build_connection_binding

  datatype Observation = Observation(
    target: Target, addresses: seq<string>, observedAt: int, connectionEpoch: int, invalidationEpoch: int,
    tls: Match, finalResult: Match, destinationIdentity: Option<string>, proxy: Proxy, executionEnabled: bool)

  /** The argument checks of `build_connection_binding`. */
  predicate ArgumentsOk(o: Observation) {
    ProxyOk(o.proxy) && o.connectionEpoch >= 0 && o.invalidationEpoch >= 0 && o.tls != DeniedResult
  }

  function EntryFor(lib: Addresses, o: Observation, i: nat): Entry
    requires i < |o.addresses|
  {
    match lib.parse(o.addresses[i])
    case None => Entry(EntryId(o.target, i), o.addresses[i], IPv4, DeniedUnallowlisted, o.observedAt)
    case Some(p) => Entry(EntryId(o.target, i), p.canonical, p.family, lib.classify(p.canonical), o.observedAt)
  }

  function EntriesFor(lib: Addresses, o: Observation): seq<Entry> {
    seq(|o.addresses|, i requires 0 <= i < |o.addresses| => EntryFor(lib, o, i))
  }

  function DestinationOf(o: Observation): string {
    if o.destinationIdentity.Some? && o.destinationIdentity.value != "" then o.destinationIdentity.value
    else "destination://" + Authority(o.target)
  }

  /** The status cascade of `build_connection_binding`. */
  function StatusOf(allPublic: bool, o: Observation): (BindingStatus, Match) {
    if !allPublic then (Denied, DeniedResult)
    else if o.tls != Matched then (Denied, Mismatched)
    else if o.finalResult != Matched then (Stale, Mismatched)
    else if !o.executionEnabled then (Denied, DeniedResult)
    else (Validated, Matched)
  }

  const MISMATCH := "identity://mismatch"

  function BuildBody(lib: Addresses, o: Observation): Body {
    var entries := EntriesFor(lib, o);
    var allPublic := entries != [] && SetStatusOf(entries) == AllAllowlistedPublic;
    var (status, result) := StatusOf(allPublic, o);
    var authority, destination := Authority(o.target), DestinationOf(o);
    Body(o.target, destination, authority, entries, if allPublic then AllAllowlistedPublic else DeniedMixed,
         if allPublic then Some(Selected(entries[0].id, entries[0].ip, entries[0].family, entries[0].status)) else None,
         o.proxy,
         Tls(o.target.host, (authority, o.tls), o.tls, destination, if o.tls == Matched then destination else MISMATCH,
             (authority, o.tls)),
         [Event(0, InitialResolution, o.observedAt, result, o.connectionEpoch, o.connectionEpoch, o.invalidationEpoch,
                o.invalidationEpoch)],
         o.connectionEpoch, o.invalidationEpoch, status)
  }

  function Built(lib: Addresses, o: Observation): Option<Record> {
    var b := BuildBody(lib, o);
    if ArgumentsOk(o) && Valid(lib, Record(b, b)) then Some(Record(b, b)) else None
  }

  /** `build_connection_binding`; None where it raises. */
  method BuildConnectionBinding(lib: Addresses, o: Observation) returns (r: Option<Record>)
    ensures r == Built(lib, o)
  {
    var entries: seq<Entry> := [];
    var allPublic := true;
    for i := 0 to |o.addresses|
      invariant entries == EntriesFor(lib, o)[..i]
      invariant allPublic == forall k :: 0 <= k < i ==> EntriesFor(lib, o)[k].status == AllowlistedPublic
    {
      var parsed := lib.parse(o.addresses[i]);
      var entry :=
        if parsed.Some? then
          Entry(EntryId(o.target, i), parsed.value.canonical, parsed.value.family,
                lib.classify(parsed.value.canonical), o.observedAt)
        else Entry(EntryId(o.target, i), o.addresses[i], IPv4, DeniedUnallowlisted, o.observedAt);
      assert entry == EntriesFor(lib, o)[i];
      allPublic := allPublic && entry.status == AllowlistedPublic;
      entries := entries + [entry];
    }
    assert entries == EntriesFor(lib, o);
    allPublic := entries != [] && allPublic;
    var setStatus := if allPublic then AllAllowlistedPublic else DeniedMixed;
    var selected :=
      if allPublic then Some(Selected(entries[0].id, entries[0].ip, entries[0].family, entries[0].status)) else None;
    if !ProxyOk(o.proxy) || o.connectionEpoch < 0 || o.invalidationEpoch < 0 || o.tls == DeniedResult { return None; }
    var status, result;
    if setStatus != AllAllowlistedPublic {
      status, result := Denied, DeniedResult;
    } else if o.tls != Matched {
      status, result := Denied, Mismatched;
    } else if o.finalResult != Matched {
      status, result := Stale, Mismatched;
    } else if !o.executionEnabled {
      status, result := Denied, DeniedResult;
    } else {
      status, result := Validated, Matched;
    }
    var authority := Authority(o.target);
    var destination :=
      if o.destinationIdentity.Some? && o.destinationIdentity.value != "" then o.destinationIdentity.value
      else "destination://" + authority;
    var tls := Tls(o.target.host, (authority, o.tls), o.tls, destination,
                   if o.tls == Matched then destination else MISMATCH, (authority, o.tls));
    var event := Event(0, InitialResolution, o.observedAt, result, o.connectionEpoch, o.connectionEpoch,
                       o.invalidationEpoch, o.invalidationEpoch);
    var b := Body(o.target, destination, authority, entries, setStatus, selected, o.proxy, tls, [event],
                  o.connectionEpoch, o.invalidationEpoch, status);
    var ok := ValidateConnectionBinding(lib, Record(b, b));
    return if ok then Some(Record(b, b)) else None;
  }

  lemma SniIsHost(t: Target)
    requires HostOk(t)
    ensures ExpectedSni(Authority(t)) == t.host
  {
    if ':' in t.host {
      var a := "[" + t.host + "]";
      assert a[1..|a| - 1] == t.host;
    }
  }

  lemma EntriesAreOk(lib: Addresses, o: Observation)
    requires Lawful(lib)
    ensures forall i :: 0 <= i < |EntriesFor(lib, o)| ==> EntryOk(lib, EntriesFor(lib, o)[i])
  {
    forall i | 0 <= i < |EntriesFor(lib, o)| ensures EntryOk(lib, EntriesFor(lib, o)[i]) {
      assert lib.parse(o.addresses[i]).Some? ==>
        lib.parse(lib.parse(o.addresses[i]).value.canonical) == lib.parse(o.addresses[i]);
    }
  }

  /** With legal arguments the builder's own record passes the validator exactly
      when there is an address and a mismatched identity is not expected under the
      very name the builder uses for a mismatch. */
  lemma BuildExact(lib: Addresses, o: Observation)
    requires Lawful(lib) && HostOk(o.target) && ArgumentsOk(o)
    ensures Built(lib, o).Some? <==> o.addresses != [] && !(o.tls == Mismatched && DestinationOf(o) == MISMATCH)
  {
    SniIsHost(o.target);
    EntriesAreOk(lib, o);
    var b := BuildBody(lib, o);
    assert |b.addresses| == |o.addresses|;
    assert EventOk(b.events, 0);
    if o.addresses != [] {
      assert b.addresses[0].id == EntryId(o.target, 0);
      assert FindEntry(b.addresses, EntryId(o.target, 0)) == Some(b.addresses[0]);
    }
  }

  /** What a built record says of the observation: each address in its place, as the
      library reads it, and the rest as it was observed. */
  lemma BuiltRecord(lib: Addresses, o: Observation)
    requires Built(lib, o).Some?
    ensures var b := Built(lib, o).value.body;
            && b.target == o.target && b.authority == Authority(o.target) && b.proxy == o.proxy
            && b.connectionEpoch == o.connectionEpoch && b.invalidationEpoch == o.invalidationEpoch
            && |b.addresses| == |o.addresses|
            && (forall i :: 0 <= i < |o.addresses| ==>
                  && b.addresses[i].id == EntryId(o.target, i) && b.addresses[i].observedAt == o.observedAt
                  && b.addresses[i].ip == match lib.parse(o.addresses[i])
                                          case Some(p) => p.canonical
                                          case None => o.addresses[i])
            && b.tls.sni == o.target.host && b.tls.identityStatus == o.tls
            && b.destinationIdentity ==
               (if o.destinationIdentity.Some? && o.destinationIdentity.value != "" then o.destinationIdentity.value
                else "destination://" + Authority(o.target))
            && |b.events| == 1 && b.events[0].observedAt == o.observedAt
  {
  }

  /** And the status its first failing condition gives. */
  lemma BuiltStatus(lib: Addresses, o: Observation)
    requires Built(lib, o).Some?
    ensures var b := Built(lib, o).value.body;
            var public := forall i :: 0 <= i < |b.addresses| ==> b.addresses[i].status == AllowlistedPublic;
            && (b.selected.Some? <==> public) && (public ==> b.selected.value.entryRef == EntryId(o.target, 0))
            && b.bindingStatus ==
               (if !public || o.tls != Matched then Denied
                else if o.finalResult != Matched then Stale
                else if o.executionEnabled then Validated else Denied)
            && b.events[0].result ==
               (if !public then DeniedResult
                else if o.tls != Matched || o.finalResult != Matched then Mismatched
                else if o.executionEnabled then Matched else DeniedResult)
  {
  }

  // ----- the independent cascade

  datatype ResolutionEntry = ResolutionEntry(ip: string, family: Family, status: Status)

  datatype Resolution = Resolution(entries: seq<ResolutionEntry>, setStatus: SetStatus,
                                   selected: Option<ResolutionEntry>)

  function Classified(lib: Addresses, addresses: seq<string>): seq<ResolutionEntry> {
    if addresses == [] then []
    else
      (match lib.parse(addresses[0])
       case None => [ResolutionEntry(addresses[0], IPv4, DeniedUnallowlisted)]
       case Some(p) => [ResolutionEntry(p.canonical, p.family, lib.classify(p.canonical))]) +
      Classified(lib, addresses[1..])
  }

  predicate AllPublic(entries: seq<ResolutionEntry>) {
    forall i :: 0 <= i < |entries| ==> entries[i].status == AllowlistedPublic
  }

  /** `NetworkPolicy.evaluate_resolution`. */
  function Resolve(lib: Addresses, addresses: seq<string>): Resolution {
    var entries := Classified(lib, addresses);
    if entries == [] || !AllPublic(entries) then Resolution(entries, DeniedMixed, None)
    else Resolution(entries, AllAllowlistedPublic, Some(entries[0]))
  }

  method EvaluateResolution(lib: Addresses, addresses: seq<string>) returns (r: Resolution)
    ensures r == Resolve(lib, addresses)
  {
    var entries: seq<ResolutionEntry> := [];
    ghost var all := Classified(lib, addresses);
    ClassifiedAt(lib, addresses);
    for i := 0 to |addresses|
      invariant entries == all[..i]
    {
      var parsed := lib.parse(addresses[i]);
      if parsed.None? {
        entries := entries + [ResolutionEntry(addresses[i], IPv4, DeniedUnallowlisted)];
      } else {
        entries :=
          entries + [ResolutionEntry(parsed.value.canonical, parsed.value.family,
                                     lib.classify(parsed.value.canonical))];
      }
    }
    assert entries == all;
    if entries == [] { return Resolution([], DeniedMixed, None); }
    if !AllPublic(entries) { return Resolution(entries, DeniedMixed, None); }
    return Resolution(entries, AllAllowlistedPublic, Some(entries[0]));
  }

  datatype Action = AllowAction | DenyAction

  datatype Reason = NoReason | PrivateAddress | DnsUnvalidated | TlsIdentityMismatch | DnsRebinding
      | ExactBindingMissing

  /** The cascade of `evaluate_network` over a resolution. */
  function Cascade(r: Resolution, tls: Match, finalResult: Match, executionEnabled: bool)
    : (Action, BindingStatus, Reason)
  {
    if r.setStatus != AllAllowlistedPublic then
      (DenyAction, Denied,
       if exists i :: 0 <= i < |r.entries| && r.entries[i].status != AllowlistedPublic then PrivateAddress
       else DnsUnvalidated)
    else if tls != Matched then (DenyAction, Denied, TlsIdentityMismatch)
    else if finalResult != Matched then (DenyAction, Stale, DnsRebinding)
    else if !executionEnabled then (DenyAction, Denied, ExactBindingMissing)
    else (AllowAction, Validated, NoReason)
  }

  /** The decision cascade, case by case. */
  lemma CascadeTable(r: Resolution, tls: Match, finalResult: Match, executionEnabled: bool)
    ensures var (action, status, reason) := Cascade(r, tls, finalResult, executionEnabled);
            if r.setStatus == DeniedMixed then
              action == DenyAction && status == Denied &&
              (reason == PrivateAddress <==>
               exists i :: 0 <= i < |r.entries| && r.entries[i].status != AllowlistedPublic) &&
              (reason == PrivateAddress || reason == DnsUnvalidated)
            else if tls != Matched then (action, status, reason) == (DenyAction, Denied, TlsIdentityMismatch)
            else if finalResult != Matched then (action, status, reason) == (DenyAction, Stale, DnsRebinding)
            else if executionEnabled then (action, status, reason) == (AllowAction, Validated, NoReason)
            else (action, status, reason) == (DenyAction, Denied, ExactBindingMissing)
  {
  }

  lemma {:induction false} ClassifiedAt(lib: Addresses, addresses: seq<string>)
    ensures |Classified(lib, addresses)| == |addresses|
    ensures forall i :: 0 <= i < |addresses| ==>
              Classified(lib, addresses)[i] ==
              match lib.parse(addresses[i])
              case None => ResolutionEntry(addresses[i], IPv4, DeniedUnallowlisted)
              case Some(p) => ResolutionEntry(p.canonical, p.family, lib.classify(p.canonical))
  {
    if addresses != [] { ClassifiedAt(lib, addresses[1..]); }
  }

  /** The two cascades agree on every observation: same set status, same selected
      address, same binding status, and the decision is ALLOW exactly when the
      binding is VALIDATED. */
  lemma CascadesAgree(lib: Addresses, o: Observation)
    ensures var b, r := BuildBody(lib, o), Resolve(lib, o.addresses);
            var (action, status, reason) := Cascade(r, o.tls, o.finalResult, o.executionEnabled);
            && b.setStatus == r.setStatus
            && (b.selected.Some? <==> r.selected.Some?)
            && (b.selected.Some? ==>
                b.selected.value.ip == r.selected.value.ip && b.selected.value.family == r.selected.value.family)
            && b.bindingStatus == status
            && (action == AllowAction <==> b.bindingStatus == Validated)
            && (reason == DnsUnvalidated <==> o.addresses == [])
  {
    EntriesAgree(lib, o);
  }

  lemma ValidatedMeans(lib: Addresses, o: Observation)
    ensures var b := BuildBody(lib, o);
            b.bindingStatus == Validated ==>
              b.setStatus == AllAllowlistedPublic && o.tls == Matched && b.events[0].result == Matched
  {
  }

  lemma EntriesAgree(lib: Addresses, o: Observation)
    ensures var entries, other := EntriesFor(lib, o), Classified(lib, o.addresses);
            && |entries| == |other| == |o.addresses|
            && (o.addresses != [] ==> (SetStatusOf(entries) == AllAllowlistedPublic <==> AllPublic(other)))
            && (o.addresses != [] ==> entries[0].ip == other[0].ip && entries[0].family == other[0].family)
  {
    ClassifiedAt(lib, o.addresses);
    var entries, other := EntriesFor(lib, o), Classified(lib, o.addresses);
    assert forall i :: 0 <= i < |entries| ==> entries[i].status == other[i].status;
    if !AllPublic(other) {
      var i :| 0 <= i < |other| && other[i].status != AllowlistedPublic;
    }
  }
}
