/** Case sealing (`pmiri/sealing.py`) over a path-to-bytes map.

    The exclusions shared by sealing and verification (analysis directories,
    caches, the manifest's own directory) and the role of a path are parameters;
    digests and entry ids stand for what they are taken of. */
module Sealing {
  import opened Ordering

  type Bytes = seq<int>

  type Files = map<string, Bytes>

  datatype Rules = Rules(excluded: string -> bool, role: string -> string)

  const REQUIRED_ROLES := [
    "runner_source", "runner_manifest", "authority_bundle", "evidence_schema", "fixture_catalog", "preflight_matrix",
    "preflight_spec", "preflight_contract", "preflight_record_schema", "selected_fixture", "selected_case",
    "preflight_record", "environment_evidence", "privacy_record", "review_attestation", "seal_attestation"]

  datatype EntryId = OfPath(path: string) | OfRole(role: string, caseId: string)

  datatype Entry =
    | Present(id: EntryId, role: string, path: string, byteLength: nat, sha256: Bytes)
    | Absent(id: EntryId, role: string, reason: string)

  datatype Body = Body(caseId: string, root: string, createdAt: string, entries: seq<Entry>,
                       requiredRoles: seq<string>, complete: bool)

  /** The manifest with what its two digests were taken of. */
  datatype Manifest = Manifest(body: Body, payloadDigest: Body, bundleDigest: (Body, seq<Entry>))

  /** The files that count. */
  function Evidence(ru: Rules, fs: Files): Files { map p | p in fs && !ru.excluded(p) :: fs[p] }

  function Kept(ru: Rules, listing: seq<string>): seq<string> {
    if listing == [] then []
    else
      Kept(ru, listing[..|listing| - 1]) +
      if ru.excluded(listing[|listing| - 1]) then [] else [listing[|listing| - 1]]
  }

  function PresentEntry(ru: Rules, fs: Files, p: string): Entry
    requires p in fs
  {
    Present(OfPath(p), ru.role(p), p, |fs[p]|, fs[p])
  }

  function PresentEntries(ru: Rules, fs: Files, paths: seq<string>): seq<Entry>
    requires forall p :: p in paths ==> p in fs
  {
    seq(|paths|, i requires 0 <= i < |paths| => PresentEntry(ru, fs, paths[i]))
  }

  function AbsentEntry(role: string, caseId: string): Entry {
    Absent(OfRole(role, caseId), role, "not supplied by this local candidate bundle")
  }

  function AbsentEntries(roles: seq<string>, present: set<string>, caseId: string): seq<Entry> {
    if roles == [] then []
    else
      AbsentEntries(roles[..|roles| - 1], present, caseId) +
      if roles[|roles| - 1] in present then [] else [AbsentEntry(roles[|roles| - 1], caseId)]
  }

  function RolesOf(ru: Rules, paths: seq<string>): set<string> { set p | p in paths :: ru.role(p) }

  function EntryKey(e: Entry): Key { Key(0, [if e.Present? then e.path else "", e.role]) }

  function AllEntries(ru: Rules, fs: Files, paths: seq<string>, caseId: string): seq<Entry>
    requires forall p :: p in paths ==> p in fs
  {
    PresentEntries(ru, fs, paths) + AbsentEntries(REQUIRED_ROLES, RolesOf(ru, paths), caseId)
  }

  /** `listing` is the order in which the directory walk yields the files. */
  ghost predicate Lists(listing: seq<string>, fs: Files) {
    && (forall i, j :: 0 <= i < j < |listing| ==> listing[i] != listing[j])
    && (forall p :: p in listing <==> p in fs)
    && "" !in fs
  }

  lemma {:induction false} KeptMembers(ru: Rules, listing: seq<string>)
    ensures forall p :: p in Kept(ru, listing) <==> p in listing && !ru.excluded(p)
    ensures (forall i, j :: 0 <= i < j < |listing| ==> listing[i] != listing[j]) ==>
              forall i, j :: 0 <= i < j < |Kept(ru, listing)| ==> Kept(ru, listing)[i] != Kept(ru, listing)[j]
  {
    if listing != [] {
      var init := listing[..|listing| - 1];
      KeptMembers(ru, init);
      assert listing == init + [listing[|listing| - 1]];
    }
  }

  function Seal(ru: Rules, fs: Files, listing: seq<string>, caseId: string, root: string, now: string): Manifest
    requires Lists(listing, fs)
  {
    KeptMembers(ru, listing);
    var paths := Kept(ru, listing);
    var body := Body(caseId, root, now, SortBy(EntryKey, AllEntries(ru, fs, paths, caseId)), REQUIRED_ROLES,
                     forall i :: 0 <= i < |REQUIRED_ROLES| ==> REQUIRED_ROLES[i] in RolesOf(ru, paths));
    Manifest(body, body, (body, body.entries))
  }

  /** The walk of `seal_directory`. */
  method CollectPresent(ru: Rules, fs: Files, listing: seq<string>)
    returns (entries: seq<Entry>, presentRoles: set<string>)
    requires forall p :: p in listing ==> p in fs
    ensures forall p :: p in Kept(ru, listing) ==> p in fs
    ensures entries == PresentEntries(ru, fs, Kept(ru, listing)) && presentRoles == RolesOf(ru, Kept(ru, listing))
  {
    entries, presentRoles := [], {};
    ghost var done: seq<string> := [];
    for n := 0 to |listing|
      invariant done == Kept(ru, listing[..n]) && (forall p :: p in done ==> p in fs)
      invariant entries == PresentEntries(ru, fs, done)
      invariant presentRoles == RolesOf(ru, done)
    {
      var path := listing[n];
      assert listing[..n + 1][..n] == listing[..n];
      assert path in listing;
      if ru.excluded(path) { continue; }
      presentRoles := presentRoles + {ru.role(path)};
      entries := entries + [PresentEntry(ru, fs, path)];
      done := done + [path];
    }
    assert listing[..|listing|] == listing;
  }

  /** The roles nothing was found for. */
  method CollectAbsent(roles: seq<string>, presentRoles: set<string>, caseId: string)
    returns (entries: seq<Entry>, complete: bool)
    ensures entries == AbsentEntries(roles, presentRoles, caseId)
    ensures complete == forall i :: 0 <= i < |roles| ==> roles[i] in presentRoles
  {
    entries, complete := [], true;
    for n := 0 to |roles|
      invariant entries == AbsentEntries(roles[..n], presentRoles, caseId)
      invariant complete == forall i :: 0 <= i < n ==> roles[i] in presentRoles
    {
      assert roles[..n + 1][..n] == roles[..n];
      if roles[n] !in presentRoles {
        complete := false;
        entries := entries + [AbsentEntry(roles[n], caseId)];
      }
    }
    assert roles[..|roles|] == roles;
  }

  /** `seal_directory`. */
  method SealDirectory(ru: Rules, fs: Files, listing: seq<string>, caseId: string, root: string, now: string)
    returns (m: Manifest)
    requires Lists(listing, fs)
    ensures m == Seal(ru, fs, listing, caseId, root, now)
  {
    var present, presentRoles := CollectPresent(ru, fs, listing);
    var absent, complete := CollectAbsent(REQUIRED_ROLES, presentRoles, caseId);
    var entries := SortBy(EntryKey, present + absent);
    var body := Body(caseId, root, now, entries, REQUIRED_ROLES, complete);
    m := Manifest(body, body, (body, entries));
  }

  // ----- verify_seal

  datatype Verdict =
    | SealHolds
    | PayloadFingerprintMismatch | BundleFingerprintMismatch | EntryIdentityDuplicate | RequiredRolesIncomplete
    | FileMissing(path: string) | FileExtra(path: string)
    | AbsentEntryInvalid | EntryFingerprintMismatch(path: string)

  predicate DistinctEntries(entries: seq<Entry>) {
    && (forall i, j :: 0 <= i < j < |entries| ==> entries[i].id != entries[j].id)
    && (forall i, j :: 0 <= i < j < |entries| && entries[i].Present? && entries[j].Present? ==>
        entries[i].path != entries[j].path)
  }

  function PathsOf(entries: seq<Entry>): seq<string> {
    if entries == [] then [] else (if entries[0].Present? then [entries[0].path] else []) + PathsOf(entries[1..])
  }

  function Difference(a: seq<string>, b: seq<string>): seq<string> {
    if a == [] then [] else (if a[0] in b then [] else [a[0]]) + Difference(a[1..], b)
  }

  /** The first entry the current files do not bear out. */
  function CheckEntries(entries: seq<Entry>, fs: Files): Verdict {
    if entries == [] then SealHolds
    else
      match entries[0]
      case Absent(_, _, reason) => if reason == "" then AbsentEntryInvalid else CheckEntries(entries[1..], fs)
      case Present(_, _, path, length, sha) =>
        if path !in fs || |fs[path]| != length || fs[path] != sha then EntryFingerprintMismatch(path)
        else CheckEntries(entries[1..], fs)
  }

  /** `verify_seal` with an explicit root. */
  function Verify(ru: Rules, m: Manifest, fs: Files, listing: seq<string>): Verdict {
    var entries := m.body.entries;
    var missing := SortedSet(Difference(PathsOf(entries), Kept(ru, listing)));
    var extra := SortedSet(Difference(Kept(ru, listing), PathsOf(entries)));
    if m.payloadDigest != m.body then PayloadFingerprintMismatch
    else if m.bundleDigest != (m.payloadDigest, entries) then BundleFingerprintMismatch
    else if !DistinctEntries(entries) then EntryIdentityDuplicate
    else if (set r | r in m.body.requiredRoles) != (set r | r in REQUIRED_ROLES) then RequiredRolesIncomplete
    else if missing != [] then FileMissing(missing[0])
    else if extra != [] then FileExtra(extra[0])
    else CheckEntries(entries, fs)
  }

  /** `verify_seal`: the walk, the inventory comparison, then entry by entry. */
  method VerifySeal(ru: Rules, m: Manifest, fs: Files, listing: seq<string>) returns (v: Verdict)
    ensures v == Verify(ru, m, fs, listing)
  {
    if m.payloadDigest != m.body { return PayloadFingerprintMismatch; }
    var entries := m.body.entries;
    if m.bundleDigest != (m.payloadDigest, entries) { return BundleFingerprintMismatch; }
    if !DistinctEntries(entries) { return EntryIdentityDuplicate; }
    if (set r | r in m.body.requiredRoles) != (set r | r in REQUIRED_ROLES) { return RequiredRolesIncomplete; }
    var actualPaths: seq<string> := [];
    for n := 0 to |listing|
      invariant actualPaths == Kept(ru, listing[..n])
    {
      assert listing[..n + 1][..n] == listing[..n];
      if !ru.excluded(listing[n]) { actualPaths := actualPaths + [listing[n]]; }
    }
    assert listing[..|listing|] == listing;
    var missing := SortedSet(Difference(PathsOf(entries), actualPaths));
    if missing != [] { return FileMissing(missing[0]); }
    var extra := SortedSet(Difference(actualPaths, PathsOf(entries)));
    if extra != [] { return FileExtra(extra[0]); }
    v := VerifyEntries(entries, fs);
  }

  method VerifyEntries(entries: seq<Entry>, fs: Files) returns (v: Verdict)
    ensures v == CheckEntries(entries, fs)
  {
    assert entries[0..] == entries;
    for n := 0 to |entries|
      invariant CheckEntries(entries[n..], fs) == CheckEntries(entries, fs)
    {
      var e := entries[n];
      assert entries[n..][0] == e && entries[n..][1..] == entries[n + 1..];
      if e.Absent? {
        if e.reason == "" { return AbsentEntryInvalid; }
        continue;
      }
      if e.path !in fs || |fs[e.path]| != e.byteLength || fs[e.path] != e.sha256 {
        return EntryFingerprintMismatch(e.path);
      }
    }
    return SealHolds;
  }

  // ----- what a sealed manifest holds

  lemma {:induction false} AbsentMembers(roles: seq<string>, present: set<string>, caseId: string, e: Entry)
    requires e in AbsentEntries(roles, present, caseId)
    ensures e.Absent? && e.role in roles && e == AbsentEntry(e.role, caseId)
  {
    var init := roles[..|roles| - 1];
    if e in AbsentEntries(init, present, caseId) { AbsentMembers(init, present, caseId, e); }
  }

  lemma {:induction false} AbsentDistinct(roles: seq<string>, present: set<string>, caseId: string)
    requires forall i, j :: 0 <= i < j < |roles| ==> roles[i] != roles[j]
    ensures DistinctKeys(EntryKey, AbsentEntries(roles, present, caseId))
  {
    if roles != [] {
      var init, last := roles[..|roles| - 1], roles[|roles| - 1];
      AbsentDistinct(init, present, caseId);
      var before := AbsentEntries(init, present, caseId);
      forall k | 0 <= k < |before| ensures EntryKey(before[k]) != EntryKey(AbsentEntry(last, caseId)) {
        AbsentMembers(init, present, caseId, before[k]);
        assert before[k].role != last;
        AbsentKeys(before[k], AbsentEntry(last, caseId));
      }
    }
  }

  lemma AbsentKeys(a: Entry, b: Entry)
    requires a.Absent? && b.Absent? && a.role != b.role
    ensures EntryKey(a) != EntryKey(b)
  {
    assert EntryKey(a).parts[1] == a.role && EntryKey(b).parts[1] == b.role;
  }

  lemma RequiredRolesDistinct()
    ensures forall i, j :: 0 <= i < j < |REQUIRED_ROLES| ==> REQUIRED_ROLES[i] != REQUIRED_ROLES[j]
  {
  }

  lemma EntriesHaveDistinctKeys(ru: Rules, fs: Files, paths: seq<string>, caseId: string)
    requires forall p :: p in paths ==> p in fs && p != ""
    requires forall i, j :: 0 <= i < j < |paths| ==> paths[i] != paths[j]
    ensures DistinctKeys(EntryKey, AllEntries(ru, fs, paths, caseId))
  {
    var present, absent := PresentEntries(ru, fs, paths), AbsentEntries(REQUIRED_ROLES, RolesOf(ru, paths), caseId);
    RequiredRolesDistinct();
    AbsentDistinct(REQUIRED_ROLES, RolesOf(ru, paths), caseId);
    forall i, j | 0 <= i < j < |present| ensures EntryKey(present[i]) != EntryKey(present[j]) {
      assert EntryKey(present[i]).parts[0] == paths[i] && EntryKey(present[j]).parts[0] == paths[j];
    }
    forall i, j | 0 <= i < |present| && 0 <= j < |absent| ensures EntryKey(present[i]) != EntryKey(absent[j]) {
      AbsentMembers(REQUIRED_ROLES, RolesOf(ru, paths), caseId, absent[j]);
      assert paths[i] in paths;
      assert EntryKey(present[i]).parts[0] == paths[i] && EntryKey(absent[j]).parts[0] == "";
    }
  }

  /** The entries of a sealed manifest: exactly the evidence files, each once, and
      absent entries with a reason. */
  ghost predicate DescribesFiles(ru: Rules, fs: Files, entries: seq<Entry>) {
    && (forall p :: p in Evidence(ru, fs) ==> PresentEntry(ru, fs, p) in entries)
    && (forall e :: e in entries && e.Present? ==> e.path in Evidence(ru, fs) && e == PresentEntry(ru, fs, e.path))
    && (forall e :: e in entries && e.Absent? ==> e.reason != "" && e.id.OfRole? && e.id.role == e.role)
  }

  lemma AllEntriesDescribe(ru: Rules, fs: Files, paths: seq<string>, caseId: string)
    requires forall p :: p in paths <==> p in Evidence(ru, fs)
    ensures DescribesFiles(ru, fs, AllEntries(ru, fs, paths, caseId))
  {
    var all := AllEntries(ru, fs, paths, caseId);
    var present, absent := PresentEntries(ru, fs, paths), AbsentEntries(REQUIRED_ROLES, RolesOf(ru, paths), caseId);
    forall p | p in Evidence(ru, fs) ensures PresentEntry(ru, fs, p) in all {
      var i :| 0 <= i < |paths| && paths[i] == p;
      assert all[i] == PresentEntry(ru, fs, p);
    }
    forall e | e in all
      ensures e.Present? ==> e.path in Evidence(ru, fs) && e == PresentEntry(ru, fs, e.path)
      ensures e.Absent? ==> e.reason != "" && e.id.OfRole? && e.id.role == e.role
    {
      if e in present {
        var i :| 0 <= i < |paths| && e == present[i];
        assert paths[i] in paths;
      } else {
        AbsentMembers(REQUIRED_ROLES, RolesOf(ru, paths), caseId, e);
      }
    }
  }

  lemma SealedEntries(ru: Rules, fs: Files, listing: seq<string>, caseId: string, root: string, now: string)
    requires Lists(listing, fs)
    ensures var entries := Seal(ru, fs, listing, caseId, root, now).body.entries;
            DescribesFiles(ru, fs, entries) && Increasing(EntryKey, entries)
  {
    KeptMembers(ru, listing);
    var paths := Kept(ru, listing);
    AllEntriesDescribe(ru, fs, paths, caseId);
    EntriesHaveDistinctKeys(ru, fs, paths, caseId);
    SortedDescribes(ru, fs, AllEntries(ru, fs, paths, caseId));
  }

  lemma SortedDescribes(ru: Rules, fs: Files, all: seq<Entry>)
    requires DescribesFiles(ru, fs, all) && DistinctKeys(EntryKey, all)
    ensures DescribesFiles(ru, fs, SortBy(EntryKey, all)) && Increasing(EntryKey, SortBy(EntryKey, all))
  {
    SortIncreasing(EntryKey, all);
    SortMembers(EntryKey, all);
    var entries := SortBy(EntryKey, all);
    forall e ensures e in entries <==> e in all {
      assert e in entries <==> e in multiset(entries);
      assert e in all <==> e in multiset(all);
    }
  }

  lemma IncreasingIsDistinct(ru: Rules, fs: Files, entries: seq<Entry>)
    requires Increasing(EntryKey, entries) && DescribesFiles(ru, fs, entries)
    ensures DistinctEntries(entries)
  {
    forall i, j | 0 <= i < j < |entries|
      ensures entries[i].id != entries[j].id
      ensures entries[i].Present? && entries[j].Present? ==> entries[i].path != entries[j].path
    {
      var a, b := entries[i], entries[j];
      assert a in entries && b in entries;
      KeyOrder(EntryKey(a), EntryKey(b));
    }
  }

  lemma {:induction false} PathsAre(entries: seq<Entry>, p: string)
    ensures p in PathsOf(entries) <==> exists e :: e in entries && e.Present? && e.path == p
  {
    if entries != [] {
      PathsAre(entries[1..], p);
      assert entries == [entries[0]] + entries[1..];
      if exists e :: e in entries && e.Present? && e.path == p {
        var e :| e in entries && e.Present? && e.path == p;
        assert e == entries[0] || e in entries[1..];
      }
    }
  }

  lemma {:induction false} DifferenceMembers(a: seq<string>, b: seq<string>, p: string)
    ensures p in Difference(a, b) <==> p in a && p !in b
  {
    if a != [] { DifferenceMembers(a[1..], b, p); }
  }

  lemma {:induction false} CheckExact(entries: seq<Entry>, fs: Files)
    ensures CheckEntries(entries, fs) == SealHolds <==>
            && (forall e :: e in entries && e.Absent? ==> e.reason != "")
            && (forall e :: e in entries && e.Present? ==>
                e.path in fs && |fs[e.path]| == e.byteLength && fs[e.path] == e.sha256)
    ensures CheckEntries(entries, fs) in {SealHolds, AbsentEntryInvalid}
            || CheckEntries(entries, fs).EntryFingerprintMismatch?
    ensures CheckEntries(entries, fs).EntryFingerprintMismatch? ==>
              exists e :: e in entries && e.Present? && e.path == CheckEntries(entries, fs).path &&
                          !(e.path in fs && |fs[e.path]| == e.byteLength && fs[e.path] == e.sha256)
  {
    if entries != [] {
      CheckExact(entries[1..], fs);
      assert entries == [entries[0]] + entries[1..];
      var v := CheckEntries(entries, fs);
      if v.EntryFingerprintMismatch? {
        if v == CheckEntries(entries[1..], fs) && CheckEntries(entries[1..], fs).EntryFingerprintMismatch? {
          var e :| e in entries[1..] && e.Present? && e.path == v.path
            && !(e.path in fs && |fs[e.path]| == e.byteLength && fs[e.path] == e.sha256);
          assert e in entries;
        } else {
          assert entries[0] in entries;
        }
      }
    }
  }

  /** A set of strings is empty exactly when its sorted listing is. */
  lemma EmptyDifference(a: seq<string>, b: seq<string>)
    ensures SortedSet(Difference(a, b)) == [] <==> forall p :: p in a ==> p in b
    ensures SortedSet(Difference(a, b)) != [] ==>
            SortedSet(Difference(a, b))[0] in a && SortedSet(Difference(a, b))[0] !in b
  {
    var d := SortedSet(Difference(a, b));
    SortedSetSpec(Difference(a, b));
    forall p ensures p in d <==> p in a && p !in b { DifferenceMembers(a, b, p); }
    if d != [] { assert d[0] in d; }
    if d == [] {
      forall p | p in a ensures p in b { assert p !in d; }
    }
  }

  lemma InventoryMatches(ru: Rules, sealedFs: Files, entries: seq<Entry>, fs: Files, listing: seq<string>)
    requires DescribesFiles(ru, sealedFs, entries) && Lists(listing, fs)
    ensures forall p :: p in PathsOf(entries) <==> p in Evidence(ru, sealedFs)
    ensures forall p :: p in Kept(ru, listing) <==> p in Evidence(ru, fs)
  {
    KeptMembers(ru, listing);
    forall p ensures p in PathsOf(entries) <==> p in Evidence(ru, sealedFs) {
      PathsAre(entries, p);
      if p in Evidence(ru, sealedFs) { assert PresentEntry(ru, sealedFs, p) in entries; }
    }
  }

  /** A seal verifies if and only if the evidence files, paths and bytes, are the
      ones that were sealed. */
  lemma SealExact(ru: Rules, fs: Files, listing: seq<string>, caseId: string, root: string, now: string, later: Files,
                  laterListing: seq<string>)
    requires Lists(listing, fs) && Lists(laterListing, later)
    ensures Verify(ru, Seal(ru, fs, listing, caseId, root, now), later, laterListing) == SealHolds <==>
            Evidence(ru, later) == Evidence(ru, fs)
  {
    var m := Seal(ru, fs, listing, caseId, root, now);
    var entries := m.body.entries;
    SealedEntries(ru, fs, listing, caseId, root, now);
    IncreasingIsDistinct(ru, fs, entries);
    InventoryMatches(ru, fs, entries, later, laterListing);
    EmptyDifference(PathsOf(entries), Kept(ru, laterListing));
    EmptyDifference(Kept(ru, laterListing), PathsOf(entries));
    CheckExact(entries, later);
    if Evidence(ru, later) == Evidence(ru, fs) {
      forall e | e in entries && e.Present? ensures e.path in later && later[e.path] == e.sha256 {
        assert e.path in Evidence(ru, later);
      }
    }
    if Verify(ru, m, later, laterListing) == SealHolds {
      forall p | p in Evidence(ru, fs)
        ensures p in Evidence(ru, later) && Evidence(ru, later)[p] == Evidence(ru, fs)[p] {
        assert PresentEntry(ru, fs, p) in entries;
        assert p in PathsOf(entries) && p in Kept(ru, laterListing);
      }
      forall p | p in Evidence(ru, later) ensures p in Evidence(ru, fs) {
        assert p in Kept(ru, laterListing) && p in PathsOf(entries);
      }
    }
  }

  ghost predicate NamesADifference(ru: Rules, fs: Files, later: Files, v: Verdict) {
    match v
    case SealHolds => true
    case FileMissing(p) => p in Evidence(ru, fs) && p !in Evidence(ru, later)
    case FileExtra(p) => p in Evidence(ru, later) && p !in Evidence(ru, fs)
    case EntryFingerprintMismatch(p) => p in Evidence(ru, fs) && p in Evidence(ru, later) && later[p] != fs[p]
    case _ => false
  }

  /** A refusal of an untouched manifest names a path that really differs. */
  lemma RefusalNamesADifference(ru: Rules, fs: Files, listing: seq<string>, caseId: string, root: string, now: string,
                                later: Files, laterListing: seq<string>)
    requires Lists(listing, fs) && Lists(laterListing, later)
    ensures NamesADifference(ru, fs, later, Verify(ru, Seal(ru, fs, listing, caseId, root, now), later, laterListing))
  {
    var m := Seal(ru, fs, listing, caseId, root, now);
    var entries := m.body.entries;
    SealedEntries(ru, fs, listing, caseId, root, now);
    IncreasingIsDistinct(ru, fs, entries);
    InventoryMatches(ru, fs, entries, later, laterListing);
    EmptyDifference(PathsOf(entries), Kept(ru, laterListing));
    EmptyDifference(Kept(ru, laterListing), PathsOf(entries));
    if Verify(ru, m, later, laterListing) == CheckEntries(entries, later)
       && SortedSet(Difference(PathsOf(entries), Kept(ru, laterListing))) == [] {
      CheckedMismatch(ru, fs, entries, later);
    }
  }

  lemma CheckedMismatch(ru: Rules, fs: Files, entries: seq<Entry>, later: Files)
    requires DescribesFiles(ru, fs, entries)
    requires forall p :: p in Evidence(ru, fs) ==> p in Evidence(ru, later)
    ensures var v := CheckEntries(entries, later);
            (v == SealHolds || v.EntryFingerprintMismatch?) && NamesADifference(ru, fs, later, v)
  {
    CheckExact(entries, later);
    NoAbsentError(entries, later);
  }

  lemma {:induction false} NoAbsentError(entries: seq<Entry>, fs: Files)
    requires forall e :: e in entries && e.Absent? ==> e.reason != ""
    ensures CheckEntries(entries, fs) != AbsentEntryInvalid
  {
    if entries != [] {
      assert entries[0] in entries && forall e :: e in entries[1..] ==> e in entries;
      NoAbsentError(entries[1..], fs);
    }
  }

  /** The manifest does not depend on the order of the directory walk. */
  lemma SealIgnoresWalkOrder(ru: Rules, fs: Files, a: seq<string>, b: seq<string>, caseId: string, root: string,
                             now: string)
    requires Lists(a, fs) && Lists(b, fs)
    ensures Seal(ru, fs, a, caseId, root, now) == Seal(ru, fs, b, caseId, root, now)
  {
    KeptMembers(ru, a);
    KeptMembers(ru, b);
    var p, q := Kept(ru, a), Kept(ru, b);
    assert RolesOf(ru, p) == RolesOf(ru, q);
    EntriesHaveDistinctKeys(ru, fs, p, caseId);
    EntriesHaveDistinctKeys(ru, fs, q, caseId);
    forall e ensures e in AllEntries(ru, fs, p, caseId) <==> e in AllEntries(ru, fs, q, caseId) {
      SameEntries(ru, fs, p, q, e);
      SameEntries(ru, fs, q, p, e);
    }
    SortPermutation(EntryKey, AllEntries(ru, fs, p, caseId), AllEntries(ru, fs, q, caseId));
  }

  lemma SameEntries(ru: Rules, fs: Files, p: seq<string>, q: seq<string>, e: Entry)
    requires (forall x :: x in p ==> x in fs) && (forall x :: x in q ==> x in fs) && forall x :: x in p ==> x in q
    ensures e in PresentEntries(ru, fs, p) ==> e in PresentEntries(ru, fs, q)
  {
    if e in PresentEntries(ru, fs, p) {
      var i :| 0 <= i < |p| && PresentEntries(ru, fs, p)[i] == e;
      assert p[i] in q;
      var j :| 0 <= j < |q| && q[j] == p[i];
      assert PresentEntries(ru, fs, q)[j] == e;
    }
  }

  // ----- what a manifest says, and which manifests verify

  /** A sealed manifest lists every evidence file with its role, length and bytes, and
      each required role no file has, with a reason; it is complete exactly when there is
      no such role; and it names what it was made for. */
  lemma ManifestSays(ru: Rules, fs: Files, listing: seq<string>, caseId: string, root: string, now: string, e: Entry)
    requires Lists(listing, fs)
    ensures var m := Seal(ru, fs, listing, caseId, root, now).body;
            && (e in m.entries <==>
                match e
                case Present(id, role, path, length, sha) =>
                  && path in fs && !ru.excluded(path) && role == ru.role(path) && length == |fs[path]|
                     && sha == fs[path]
                  && id == OfPath(path)
                case Absent(id, role, reason) =>
                  && role in REQUIRED_ROLES && (forall p :: p in fs && !ru.excluded(p) ==> ru.role(p) != role)
                  && id == OfRole(role, caseId) && reason == "not supplied by this local candidate bundle")
            && (m.complete <==> forall role :: role in REQUIRED_ROLES ==>
                  exists p :: p in fs && !ru.excluded(p) && ru.role(p) == role)
            && m.caseId == caseId && m.root == root && m.createdAt == now && m.requiredRoles == REQUIRED_ROLES
  {
    KeptMembers(ru, listing);
    var paths := Kept(ru, listing);
    var present, absent := PresentEntries(ru, fs, paths), AbsentEntries(REQUIRED_ROLES, RolesOf(ru, paths), caseId);
    var all := AllEntries(ru, fs, paths, caseId);
    SortMembers(EntryKey, all);
    assert e in all <==> e in present || e in absent;
    PresentExactly(ru, fs, paths, e);
    AbsentExactly(REQUIRED_ROLES, RolesOf(ru, paths), caseId, e);
    RolesExactly(ru, fs, paths, REQUIRED_ROLES);
  }

  lemma PresentExactly(ru: Rules, fs: Files, paths: seq<string>, e: Entry)
    requires forall p :: p in paths <==> p in fs && !ru.excluded(p)
    ensures e in PresentEntries(ru, fs, paths) <==>
            e.Present? && e.path in fs && !ru.excluded(e.path) && e == PresentEntry(ru, fs, e.path)
  {
    var present := PresentEntries(ru, fs, paths);
    if e in present {
      var i :| 0 <= i < |present| && present[i] == e;
      assert paths[i] in paths;
    }
    if e.Present? && e.path in fs && !ru.excluded(e.path) && e == PresentEntry(ru, fs, e.path) {
      var i :| 0 <= i < |paths| && paths[i] == e.path;
      assert present[i] == e;
    }
  }

  lemma {:induction false} AbsentExactly(roles: seq<string>, present: set<string>, caseId: string, e: Entry)
    ensures e in AbsentEntries(roles, present, caseId) <==>
            && e.Absent? && e.role in roles && e.role !in present && e.id == OfRole(e.role, caseId)
            && e.reason == "not supplied by this local candidate bundle"
  {
    if roles != [] {
      var init := roles[..|roles| - 1];
      AbsentExactly(init, present, caseId, e);
      assert roles == init + [roles[|roles| - 1]];
    }
  }

  lemma RolesExactly(ru: Rules, fs: Files, paths: seq<string>, required: seq<string>)
    requires forall p :: p in paths <==> p in fs && !ru.excluded(p)
    ensures forall role :: role in RolesOf(ru, paths) <==> exists p :: p in fs && !ru.excluded(p) && ru.role(p) == role
    ensures (forall i :: 0 <= i < |required| ==> required[i] in RolesOf(ru, paths)) <==>
            forall role :: role in required ==> exists p :: p in fs && !ru.excluded(p) && ru.role(p) == role
  {
    forall role ensures role in RolesOf(ru, paths) <==> exists p :: p in fs && !ru.excluded(p) && ru.role(p) == role {
      if p :| p in fs && !ru.excluded(p) && ru.role(p) == role { assert p in paths; }
    }
    if forall role :: role in required ==> exists p :: p in fs && !ru.excluded(p) && ru.role(p) == role {
      forall i | 0 <= i < |required| ensures required[i] in RolesOf(ru, paths) { assert required[i] in required; }
    }
  }

  /** Entries are in order of path, absent ones first, then of role. */
  lemma EntriesInOrder(ru: Rules, fs: Files, listing: seq<string>, caseId: string, root: string, now: string)
    requires Lists(listing, fs)
    ensures var entries := Seal(ru, fs, listing, caseId, root, now).body.entries;
            forall i, j :: 0 <= i < j < |entries| ==> InOrder(entries[i], entries[j])
  {
    var entries := Seal(ru, fs, listing, caseId, root, now).body.entries;
    SealedEntries(ru, fs, listing, caseId, root, now);
    forall i, j | 0 <= i < j < |entries| ensures InOrder(entries[i], entries[j]) {
      assert KeyLess(EntryKey(entries[i]), EntryKey(entries[j]));
      EntryOrder(entries[i], entries[j]);
    }
  }

  predicate InOrder(a: Entry, b: Entry) {
    match (a, b)
    case (Present(_, _, p, _, _), Present(_, _, q, _, _)) => StrLess(p, q) || (p == q && StrLess(a.role, b.role))
    case (Absent(_, _, _), Present(_, _, q, _, _)) => q != "" || StrLess(a.role, b.role)
    case (Present(_, _, p, _, _), Absent(_, _, _)) => p == "" && StrLess(a.role, b.role)
    case (Absent(_, _, _), Absent(_, _, _)) => StrLess(a.role, b.role)
  }

  lemma EntryOrder(a: Entry, b: Entry)
    requires KeyLess(EntryKey(a), EntryKey(b))
    ensures InOrder(a, b)
  {
    var s, t := EntryKey(a).parts, EntryKey(b).parts;
    assert s[1..] == [a.role] && t[1..] == [b.role];
    assert PartsLess([a.role], [b.role]) <==> StrLess(a.role, b.role);
    assert !StrLess(s[0], "");
  }

  /** Any manifest, sealed by the program or not, verifies if and only if both digests
      are of its own contents, entry ids and paths are unique, the required roles are the
      program's, its present entries are exactly the current evidence files with their
      lengths and bytes, and every absent entry gives a reason. */
  lemma VerifiesExactly(ru: Rules, m: Manifest, fs: Files, listing: seq<string>)
    requires Lists(listing, fs)
    ensures Verify(ru, m, fs, listing) == SealHolds <==>
            var entries := m.body.entries;
            && m.payloadDigest == m.body && m.bundleDigest == (m.body, entries)
            && (forall i, j :: 0 <= i < j < |entries| ==> entries[i].id != entries[j].id)
            && (forall i, j :: 0 <= i < j < |entries| && entries[i].Present? && entries[j].Present? ==>
                  entries[i].path != entries[j].path)
            && (forall role :: role in m.body.requiredRoles <==> role in REQUIRED_ROLES)
            && (forall p :: p in fs && !ru.excluded(p) ==> exists e :: e in entries && e.Present? && e.path == p)
            && (forall e :: e in entries && e.Present? ==>
                  e.path in fs && !ru.excluded(e.path) && e.byteLength == |fs[e.path]| && e.sha256 == fs[e.path])
            && (forall e :: e in entries && e.Absent? ==> e.reason != "")
  {
    var entries, kept := m.body.entries, Kept(ru, listing);
    KeptMembers(ru, listing);
    EmptyDifference(PathsOf(entries), kept);
    EmptyDifference(kept, PathsOf(entries));
    CheckExact(entries, fs);
    SameRoles(m.body.requiredRoles);
    PathsExactly(entries);
    InventoryExactly(ru, fs, entries, kept);
  }

  /** Before files are looked at: the first of four checks that fails gives the verdict. */
  lemma ManifestVerdicts(ru: Rules, m: Manifest, fs: Files, listing: seq<string>)
    ensures var v, entries := Verify(ru, m, fs, listing), m.body.entries;
            if m.payloadDigest != m.body then v == PayloadFingerprintMismatch
            else if m.bundleDigest != (m.body, entries) then v == BundleFingerprintMismatch
            else if exists i, j :: 0 <= i < j < |entries| && Clash(entries[i], entries[j])
            then v == EntryIdentityDuplicate
            else if !forall role :: role in m.body.requiredRoles <==> role in REQUIRED_ROLES then
              v == RequiredRolesIncomplete
            else v !in {PayloadFingerprintMismatch, BundleFingerprintMismatch, EntryIdentityDuplicate,
                        RequiredRolesIncomplete}
  {
    var entries := m.body.entries;
    SameRoles(m.body.requiredRoles);
    CheckExact(entries, fs);
    if i, j :| 0 <= i < j < |entries| && Clash(entries[i], entries[j]) { assert !DistinctEntries(entries); }
    if !DistinctEntries(entries) {
      if i, j :| 0 <= i < j < |entries| && entries[i].id == entries[j].id {
        assert Clash(entries[i], entries[j]);
      } else {
        var i, j :| 0 <= i < j < |entries| && entries[i].Present? && entries[j].Present?
                    && entries[i].path == entries[j].path;
        assert Clash(entries[i], entries[j]);
      }
    }
  }

  /** Two entries with one id, or two files listed under one path. */
  predicate Clash(a: Entry, b: Entry) { a.id == b.id || (a.Present? && b.Present? && a.path == b.path) }

  lemma PathsExactly(entries: seq<Entry>)
    ensures forall p :: p in PathsOf(entries) <==> exists e :: e in entries && e.Present? && e.path == p
  {
    forall p ensures p in PathsOf(entries) <==> exists e :: e in entries && e.Present? && e.path == p {
      PathsAre(entries, p);
    }
  }

  lemma SameRoles(roles: seq<string>)
    ensures (set r | r in roles) == (set r | r in REQUIRED_ROLES) <==> forall r :: r in roles <==> r in REQUIRED_ROLES
  {
    var a, b := set r | r in roles, set r | r in REQUIRED_ROLES;
    if a == b {
      forall r ensures r in roles <==> r in REQUIRED_ROLES { assert r in a <==> r in b; }
    }
  }

  lemma InventoryExactly(ru: Rules, fs: Files, entries: seq<Entry>, kept: seq<string>)
    requires forall p :: p in kept <==> p in fs && !ru.excluded(p)
    requires forall p :: p in PathsOf(entries) <==> exists e :: e in entries && e.Present? && e.path == p
    ensures (forall p :: p in PathsOf(entries) ==> p in kept) <==>
            (forall e :: e in entries && e.Present? ==> e.path in fs && !ru.excluded(e.path))
    ensures (forall p :: p in kept ==> p in PathsOf(entries)) <==>
            (forall p :: p in fs && !ru.excluded(p) ==> exists e :: e in entries && e.Present? && e.path == p)
  {
    if forall p :: p in PathsOf(entries) ==> p in kept {
      forall e | e in entries && e.Present? ensures e.path in fs && !ru.excluded(e.path) {
        assert e.path in PathsOf(entries);
      }
    }
  }
}
