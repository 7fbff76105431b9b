/** The content-addressed stores of `pmiri/store.py`: `LocalStore` (a sorted JSON
    index and blob files) and `SQLiteStore` (two tables).  Hashing is a parameter:
    everything here holds for every hash function unless a lemma says otherwise.
    UTF-8 text is a string; a byte string that is not UTF-8 is `Undecodable`. */
module Store {
  import opened Ordering

  // ----- normalize_text

  function ReplaceCrLf(s: string): string {
    if s == "" then ""
    else if |s| >= 2 && s[0] == '\r' && s[1] == '\n' then "\n" + ReplaceCrLf(s[2..])
    else [s[0]] + ReplaceCrLf(s[1..])
  }

  function ReplaceChar(s: string, from: char, to: char): string {
    if s == "" then "" else [if s[0] == from then to else s[0]] + ReplaceChar(s[1..], from, to)
  }

  /** The text part of `normalize_text`. */
  function NormalizeText(s: string): string { ReplaceChar(ReplaceCrLf(s), '\r', '\n') }

  lemma {:induction false} ReplaceCharRemoves(s: string, from: char, to: char)
    requires from != to
    ensures from !in ReplaceChar(s, from, to)
    ensures from !in s ==> ReplaceChar(s, from, to) == s
  {
    if s != "" {
      ReplaceCharRemoves(s[1..], from, to);
      assert s == [s[0]] + s[1..];
    }
  }

  lemma {:induction false} NoCrUnchanged(s: string)
    requires '\r' !in s
    ensures ReplaceCrLf(s) == s
  {
    if s != "" {
      NoCrUnchanged(s[1..]);
      assert s == [s[0]] + s[1..];
    }
  }

  /** Normalized text has no carriage return and normalizes to itself. */
  lemma NormalizeTextIdempotent(s: string)
    ensures '\r' !in NormalizeText(s)
    ensures NormalizeText(NormalizeText(s)) == NormalizeText(s)
    ensures '\r' !in s ==> NormalizeText(s) == s
  {
    ReplaceCharRemoves(ReplaceCrLf(s), '\r', '\n');
    NoCrUnchanged(NormalizeText(s));
    ReplaceCharRemoves(NormalizeText(s), '\r', '\n');
    if '\r' !in s { NoCrUnchanged(s); }
  }

  function CrLfAt(s: string): (n: nat)
    requires s != ""
    ensures n <= |s|
  {
    if |s| >= 2 && s[0] == '\r' && s[1] == '\n' then 2 else 1
  }

  lemma CrLfStep(s: string)
    requires s != ""
    ensures ReplaceCrLf(s) == (if CrLfAt(s) == 2 then "\n" else [s[0]]) + ReplaceCrLf(s[CrLfAt(s)..])
  {
  }

  lemma {:induction false} CrLfInPieces(a: string, b: string)
    requires !(a != "" && a[|a| - 1] == '\r' && b != "" && b[0] == '\n')
    ensures ReplaceCrLf(a + b) == ReplaceCrLf(a) + ReplaceCrLf(b)
    decreases |a|
  {
    if a == "" {
      assert a + b == b;
    } else {
      SameFirst(a, b);
      CrLfStep(a);
      CrLfStep(a + b);
      var rest := a[CrLfAt(a)..];
      assert rest != "" ==> rest[|rest| - 1] == a[|a| - 1];
      CrLfInPieces(rest, b);
      Reassociate(if CrLfAt(a) == 2 then "\n" else [a[0]], ReplaceCrLf(rest), ReplaceCrLf(b));
    }
  }

  lemma Reassociate(a: string, b: string, c: string)
    ensures a + (b + c) == a + b + c
  {
  }

  lemma SameFirst(a: string, b: string)
    requires a != "" && !(a[|a| - 1] == '\r' && b != "" && b[0] == '\n')
    ensures CrLfAt(a + b) == CrLfAt(a) && (a + b)[0] == a[0] && (a + b)[CrLfAt(a)..] == a[CrLfAt(a)..] + b
  {
    assert |a| >= 2 ==> (a + b)[1] == a[1];
    assert |a| == 1 && b != "" ==> (a + b)[1] == b[0];
  }

  lemma {:induction false} CharInPieces(a: string, b: string, from: char, to: char)
    ensures ReplaceChar(a + b, from, to) == ReplaceChar(a, from, to) + ReplaceChar(b, from, to)
  {
    if a == "" {
      assert a + b == b;
    } else {
      var s := a + b;
      assert s[0] == a[0] && s[1..] == a[1..] + b;
      CharInPieces(a[1..], b, from, to);
    }
  }

  /** Text is normalized piece by piece, as long as no piece ends inside a "\r\n". */
  lemma NormalizedInPieces(a: string, b: string)
    requires !(a != "" && a[|a| - 1] == '\r' && b != "" && b[0] == '\n')
    ensures NormalizeText(a + b) == NormalizeText(a) + NormalizeText(b)
  {
    CrLfInPieces(a, b);
    CharInPieces(ReplaceCrLf(a), ReplaceCrLf(b), '\r', '\n');
  }

  /** Every line break, written "\r\n", "\r" or "\n", becomes one "\n"; together with
      the law above and that other text stays as it is, this fixes the function. */
  lemma LineBreaks()
    ensures NormalizeText("\r\n") == NormalizeText("\r") == NormalizeText("\n") == "\n"
  {
    assert "\r\n"[2..] == "" && "\r"[1..] == "" && "\n"[1..] == "";
    assert ReplaceCrLf("\r\n") == "\n" && ReplaceCrLf("\r") == "\r" && ReplaceCrLf("\n") == "\n";
  }

  // ----- records

  datatype Error = SourceIdentityInvalid | NotUtf8 | BlobMissing | BlobFingerprintMismatch | MigrationTargetExists

  datatype Raw = Text(text: string) | Undecodable

  /** The two fingerprints the store takes: of a text, and of (project, name). */
  datatype Hash = Hash(text: string -> string, name: (string, string) -> string)

  /** `SourceRecord.public_dict`. */
  datatype Entry = Entry(sourceId: string, versionId: string, projectId: string, sourceName: string,
                         fingerprint: string, captureTime: string, metadata: map<string, string>)

  datatype SourceRecord = SourceRecord(entry: Entry, content: string)

  /** The arguments of `register_bytes`, with the capture time made explicit. */
  datatype Registration = Registration(projectId: string, sourceName: string, raw: Raw, captureTime: string,
                                       metadata: map<string, string>)

  function Segments(name: string): seq<string> {
    if name == "" then [""]
    else
      var rest := Segments(name[1..]);
      if name[0] == '/' || rest == [] then [""] + rest else [[name[0]] + rest[0]] + rest[1..]
  }

  /** Nonempty, relative, and without a ".." part (POSIX paths). */
  predicate ValidIdentity(projectId: string, sourceName: string) {
    projectId != "" && sourceName != "" && sourceName[0] != '/' && ".." !in Segments(sourceName)
  }

  function Slashed(name: string): string { ReplaceChar(name, '\\', '/') }

  /** The record both stores make of a registration. */
  function MakeRecord(h: Hash, r: Registration): Result<SourceRecord, Error> {
    if !ValidIdentity(r.projectId, r.sourceName) then Err(SourceIdentityInvalid)
    else if r.raw.Undecodable? then Err(NotUtf8)
    else
      var content := NormalizeText(r.raw.text);
      var fingerprint := h.text(content);
      var name := Slashed(r.sourceName);
      Ok(SourceRecord(Entry(h.name(r.projectId, name), "ver_" + fingerprint, r.projectId, name, fingerprint,
                            r.captureTime,
                            r.metadata), content))
  }

  // ----- keys

  function EntryKey(e: Entry): Key { Key(0, [e.projectId, e.sourceId, e.versionId]) }

  /** The identity of an entry: the primary key of the `sources` table. */
  function VersionKey(e: Entry): Key { Key(0, [e.sourceId, e.versionId]) }

  predicate Holds(entries: seq<Entry>, e: Entry) {
    exists i :: 0 <= i < |entries| && VersionKey(entries[i]) == VersionKey(e)
  }

  lemma EntryKeyDecides(a: Entry, b: Entry)
    ensures EntryKey(a) == EntryKey(b) ==> VersionKey(a) == VersionKey(b)
    ensures VersionKey(a) == VersionKey(b) ==> a.sourceId == b.sourceId && a.versionId == b.versionId
  {
    var (p, q) := (EntryKey(a).parts, EntryKey(b).parts);
    assert p == q ==> p[1] == q[1] && p[2] == q[2];
    var (v, w) := (VersionKey(a).parts, VersionKey(b).parts);
    assert v == w ==> v[0] == w[0] && v[1] == w[1];
  }

  lemma VersionKeysAreEntryKeys(entries: seq<Entry>)
    requires DistinctKeys(VersionKey, entries)
    ensures DistinctKeys(EntryKey, entries)
  {
    forall i, j | 0 <= i < j < |entries| ensures EntryKey(entries[i]) != EntryKey(entries[j]) {
      EntryKeyDecides(entries[i], entries[j]);
    }
  }

  // ----- LocalStore

  datatype Local = Local(index: seq<Entry>, blobs: map<string, string>)

  const EMPTY_LOCAL := Local([], map[])

  function WriteBlob(h: Hash, blobs: map<string, string>, r: SourceRecord): map<string, string> {
    var fp := r.entry.fingerprint;
    if fp in blobs && h.text(blobs[fp]) == fp then blobs else blobs[fp := r.content]
  }

  function LocalAdd(h: Hash, s: Local, r: SourceRecord): Local {
    if Holds(s.index, r.entry) then s
    else Local(SortBy(EntryKey, s.index + [r.entry]), WriteBlob(h, s.blobs, r))
  }

  // ----- SQLiteStore

  /** The `blobs` and `sources` tables, the latter in insertion order. */
  datatype Sql = Sql(blobs: map<string, string>, sources: seq<Entry>)

  const EMPTY_SQL := Sql(map[], [])

  function SqlAdd(s: Sql, r: SourceRecord): Sql {
    var fp := r.entry.fingerprint;
    Sql(if fp in s.blobs then s.blobs else s.blobs[fp := r.content],
        if Holds(s.sources, r.entry) then s.sources else s.sources + [r.entry])
  }

  // ----- reading back

  function OfProject(entries: seq<Entry>, project: Option<string>): seq<Entry> {
    if entries == [] then []
    else
      (if project.None? || entries[0].projectId == project.value then [entries[0]] else []) +
      OfProject(entries[1..], project)
  }

  /** Later capture, ties broken by version. */
  predicate Newer(a: Entry, b: Entry) {
    StrLess(b.captureTime, a.captureTime) || (a.captureTime == b.captureTime && StrLess(b.versionId, a.versionId))
  }

  predicate IsLatest(e: Entry, among: seq<Entry>) {
    forall i :: 0 <= i < |among| && among[i].sourceId == e.sourceId ==> !Newer(among[i], e)
  }

  function LatestOf(entries: seq<Entry>, among: seq<Entry>): seq<Entry> {
    if entries == [] then []
    else (if IsLatest(entries[0], among) then [entries[0]] else []) + LatestOf(entries[1..], among)
  }

  function LoadRecord(h: Hash, blobs: map<string, string>, e: Entry): Result<SourceRecord, Error> {
    if e.fingerprint !in blobs then Err(BlobMissing)
    else if h.text(blobs[e.fingerprint]) != e.fingerprint then Err(BlobFingerprintMismatch)
    else Ok(SourceRecord(e, blobs[e.fingerprint]))
  }

  function LoadAll(h: Hash, blobs: map<string, string>, entries: seq<Entry>): Result<seq<SourceRecord>, Error> {
    if entries == [] then Ok([])
    else
      match LoadRecord(h, blobs, entries[0])
      case Err(e) => Err(e)
      case Ok(r) =>
        match LoadAll(h, blobs, entries[1..])
        case Err(e) => Err(e)
        case Ok(rs) => Ok([r] + rs)
  }

  /** What `list_sources` selects from rows already in key order. */
  function Select(rows: seq<Entry>, project: Option<string>, history: bool): seq<Entry> {
    var raw := OfProject(rows, project);
    if history then raw else LatestOf(raw, raw)
  }

  function LocalList(h: Hash, s: Local, project: Option<string>, history: bool): Result<seq<SourceRecord>, Error> {
    LoadAll(h, s.blobs, Select(s.index, project, history))
  }

  function SqlList(h: Hash, s: Sql, project: Option<string>, history: bool): Result<seq<SourceRecord>, Error> {
    LoadAll(h, s.blobs, Select(SortBy(EntryKey, s.sources), project, history))
  }

  function Entries(rs: seq<SourceRecord>): seq<Entry> {
    if rs == [] then [] else [rs[0].entry] + Entries(rs[1..])
  }

  // ----- what every registration keeps

  predicate GoodEntry(h: Hash, blobs: map<string, string>, e: Entry) {
    && e.fingerprint in blobs && h.text(blobs[e.fingerprint]) == e.fingerprint && '\r' !in blobs[e.fingerprint]
    && e.versionId == "ver_" + e.fingerprint && e.sourceId == h.name(e.projectId, e.sourceName)
    && '\\' !in e.sourceName && e.projectId != "" && e.sourceName != ""
  }

  /** The index as the program writes it: sorted, one entry per version. */
  ghost predicate IndexInv(index: seq<Entry>) { Increasing(EntryKey, index) && DistinctKeys(VersionKey, index) }

  /** And, while nobody else touches the files, every entry backed by its blob. */
  ghost predicate LocalInv(h: Hash, s: Local) {
    && IndexInv(s.index)
    && (forall e :: e in s.index ==> GoodEntry(h, s.blobs, e))
    && (forall fp :: fp in s.blobs ==> h.text(s.blobs[fp]) == fp && '\r' !in s.blobs[fp])
  }

  /** The two stores hold the same: blobs equal, index the ordered table. */
  ghost predicate Mirror(l: Local, s: Sql) {
    l.blobs == s.blobs && l.index == SortBy(EntryKey, s.sources) && DistinctKeys(VersionKey, s.sources)
  }

  lemma {:induction false} SlashedNonEmpty(s: string)
    ensures |Slashed(s)| == |s|
  {
    if s != "" { SlashedNonEmpty(s[1..]); }
  }

  lemma {:induction false} SlashedAt(s: string)
    ensures |Slashed(s)| == |s|
    ensures forall i :: 0 <= i < |s| ==> Slashed(s)[i] == if s[i] == '\\' then '/' else s[i]
  {
    if s != "" { SlashedAt(s[1..]); }
  }

  /** A ".." between slashes or ends. */
  predicate ParentAt(name: string, i: nat) {
    && i + 2 <= |name| && name[i] == '.' && name[i + 1] == '.'
    && (i == 0 || name[i - 1] == '/') && (i + 2 == |name| || name[i + 2] == '/')
  }

  predicate StartsWithPart(name: string, part: string) {
    part <= name && '/' !in part && (|part| == |name| || name[|part|] == '/')
  }

  lemma {:induction false} FirstSegment(name: string)
    ensures Segments(name) != [] && StartsWithPart(name, Segments(name)[0])
  {
    if name != "" {
      FirstSegment(name[1..]);
      var first := Segments(name)[0];
      if name[0] != '/' {
        assert first == [name[0]] + Segments(name[1..])[0];
        assert forall i :: 0 < i < |first| ==> first[i] == name[1..][i - 1];
        assert |first| < |name| ==> name[|first|] == name[1..][|first| - 1];
      }
    }
  }

  lemma OnePart(name: string, a: string, b: string)
    requires StartsWithPart(name, a) && StartsWithPart(name, b)
    ensures a == b
  {
    assert a == name[..|a|] && b == name[..|b|];
  }

  lemma {:induction false} ParentParts(name: string)
    ensures ".." in Segments(name)[1..] <==> exists i: nat :: 0 < i && ParentAt(name, i)
    ensures Segments(name)[0] == ".." <==> ParentAt(name, 0)
    ensures Segments(name) != []
  {
    FirstSegment(name);
    if ParentAt(name, 0) {
      assert StartsWithPart(name, "..");
      OnePart(name, "..", Segments(name)[0]);
    }
    if name != "" {
      var rest := name[1..];
      ParentParts(rest);
      var s, t := Segments(name), Segments(rest);
      if name[0] == '/' {
        assert s[1..] == t;
        assert ".." in t <==> t[0] == ".." || ".." in t[1..];
        ShiftedParents(name);
      } else {
        assert s[1..] == t[1..];
        ShiftedParents(name);
      }
    }
  }

  lemma ShiftedParents(name: string)
    requires name != ""
    ensures (exists i: nat :: 0 < i && ParentAt(name, i)) <==>
            (name[0] == '/' && ParentAt(name[1..], 0)) || (exists i: nat :: 0 < i && ParentAt(name[1..], i))
  {
    var rest := name[1..];
    if i: nat :| 0 < i && ParentAt(name, i) {
      assert name[i] == rest[i - 1] && name[i + 1] == rest[i];
      assert ParentAt(rest, i - 1);
    }
    if i: nat :| 0 < i && ParentAt(rest, i) { assert ParentAt(name, i + 1); }
    if name[0] == '/' && ParentAt(rest, 0) { assert ParentAt(name, 1); }
  }

  /** Which registrations are refused: an empty project or name, a name that starts
      with a slash or has a ".." part, and bytes that do not decode. */
  lemma RefusedExactly(h: Hash, r: Registration)
    ensures var bad := r.projectId == "" || r.sourceName == "" || r.sourceName[0] == '/'
                       || exists i: nat :: ParentAt(r.sourceName, i);
            if bad then MakeRecord(h, r) == Err(SourceIdentityInvalid)
            else if r.raw.Undecodable? then MakeRecord(h, r) == Err(NotUtf8)
            else MakeRecord(h, r).Ok?
  {
    var s := Segments(r.sourceName);
    ParentParts(r.sourceName);
    assert ".." in s <==> s[0] == ".." || ".." in s[1..];
  }

  lemma MadeRecord(h: Hash, r: Registration)
    requires MakeRecord(h, r).Ok?
    ensures var m := MakeRecord(h, r).value;
            && m.entry.fingerprint == h.text(m.content) && '\r' !in m.content
            && GoodEntry(h, map[m.entry.fingerprint := m.content], m.entry)
            && r.raw.Text? && m.content == NormalizeText(r.raw.text)
            && m.entry.projectId == r.projectId && m.entry.captureTime == r.captureTime
            && m.entry.metadata == r.metadata && |m.entry.sourceName| == |r.sourceName|
            && forall i :: 0 <= i < |r.sourceName| ==>
                 m.entry.sourceName[i] == if r.sourceName[i] == '\\' then '/' else r.sourceName[i]
  {
    SlashedAt(r.sourceName);
    NormalizeTextIdempotent(r.raw.text);
    ReplaceCharRemoves(r.sourceName, '\\', '/');
    SlashedNonEmpty(r.sourceName);
  }

  lemma AppendDistinct(entries: seq<Entry>, e: Entry)
    requires DistinctKeys(VersionKey, entries) && !Holds(entries, e)
    ensures DistinctKeys(VersionKey, entries + [e])
  {
  }

  /** Distinctness of keys is about which entries there are, not their order. */
  lemma DistinctIsOrderFree(a: seq<Entry>, b: seq<Entry>)
    requires DistinctKeys(VersionKey, a) && multiset(a) == multiset(b)
    ensures DistinctKeys(VersionKey, b)
  {
    forall i, j | 0 <= i < j < |b| ensures VersionKey(b[i]) != VersionKey(b[j]) {
      if VersionKey(b[i]) == VersionKey(b[j]) {
        assert b[i] in multiset(a) && b[j] in multiset(a);
        assert b[i] in a && b[j] in a;
        var k :| 0 <= k < |a| && a[k] == b[i];
        var m :| 0 <= m < |a| && a[m] == b[j];
        assert k == m;
        TwiceInB(b, i, j);
        OnceInA(a, k);
      }
    }
  }

  lemma TwiceInB(b: seq<Entry>, i: nat, j: nat)
    requires i < j < |b| && b[i] == b[j]
    ensures multiset(b)[b[i]] >= 2
  {
    assert b == b[..j] + [b[j]] + b[j + 1..];
    assert b[..j] == b[..i] + [b[i]] + b[..j][i + 1..];
  }

  lemma OnceInA(a: seq<Entry>, k: nat)
    requires DistinctKeys(VersionKey, a) && k < |a|
    ensures multiset(a)[a[k]] == 1
  {
    var x := a[k];
    assert a == a[..k] + [x] + a[k + 1..];
    assert x !in a[..k] && x !in a[k + 1..];
  }

  /** Sorting after an insertion: order and distinctness survive. */
  lemma SortedInsertion(entries: seq<Entry>, e: Entry)
    requires DistinctKeys(VersionKey, entries) && !Holds(entries, e)
    ensures var r := SortBy(EntryKey, entries + [e]);
            && Increasing(EntryKey, r) && DistinctKeys(VersionKey, r)
            && (forall x :: x in r <==> x in entries || x == e)
  {
    AppendDistinct(entries, e);
    VersionKeysAreEntryKeys(entries + [e]);
    SortIncreasing(EntryKey, entries + [e]);
    SortMembers(EntryKey, entries + [e]);
    var r := SortBy(EntryKey, entries + [e]);
    DistinctIsOrderFree(entries + [e], r);
    forall x ensures x in r <==> x in entries || x == e {
      assert x in r <==> x in multiset(r);
      assert x in entries + [e] <==> x in multiset(entries + [e]);
    }
  }

  ghost predicate GoodRecord(h: Hash, r: SourceRecord) {
    r.entry.fingerprint == h.text(r.content) && GoodEntry(h, map[r.entry.fingerprint := r.content], r.entry)
  }

  lemma LocalAddInv(h: Hash, s: Local, r: SourceRecord)
    requires LocalInv(h, s) && GoodRecord(h, r)
    ensures LocalInv(h, LocalAdd(h, s, r))
  {
    if !Holds(s.index, r.entry) { SortedInsertion(s.index, r.entry); }
  }

  /** Whatever became of the blob files: registering a version that is not indexed
      leaves its blob sound, a damaged or missing one written anew, and touches no
      other blob. */
  lemma RegistrationRepairs(h: Hash, s: Local, r: SourceRecord)
    requires GoodRecord(h, r) && !Holds(s.index, r.entry)
    ensures var fp, blobs := r.entry.fingerprint, LocalAdd(h, s, r).blobs;
            && LoadRecord(h, blobs, r.entry).Ok?
            && (!(fp in s.blobs && h.text(s.blobs[fp]) == fp) ==> LoadRecord(h, blobs, r.entry) == Ok(r))
            && blobs.Keys == s.blobs.Keys + {fp} && forall other :: other in s.blobs && other != fp ==>
               blobs[other] == s.blobs[other]
  {
  }

  predicate Damaged(h: Hash, blobs: map<string, string>, e: Entry) {
    e.fingerprint !in blobs || h.text(blobs[e.fingerprint]) != e.fingerprint
  }

  /** Loading fails exactly when some selected entry's blob is missing or does not have
      its hash; the first such entry decides how. */
  lemma {:induction false} LoadFailsExactly(h: Hash, blobs: map<string, string>, entries: seq<Entry>)
    ensures LoadAll(h, blobs, entries).Ok? <==> forall i :: 0 <= i < |entries| ==> !Damaged(h, blobs, entries[i])
    ensures forall i :: 0 <= i < |entries| && Damaged(h, blobs, entries[i])
                        && (forall k :: 0 <= k < i ==> !Damaged(h, blobs, entries[k])) ==>
              LoadAll(h, blobs, entries) ==
              Err(if entries[i].fingerprint !in blobs then BlobMissing else BlobFingerprintMismatch)
  {
    if entries != [] {
      var rest := entries[1..];
      LoadFailsExactly(h, blobs, rest);
      assert forall i :: 0 <= i < |rest| ==> rest[i] == entries[i + 1];
      assert (forall i :: 0 <= i < |entries| ==> !Damaged(h, blobs, entries[i])) <==>
             !Damaged(h, blobs, entries[0]) && forall i :: 0 <= i < |rest| ==> !Damaged(h, blobs, rest[i]);
      forall i | 0 <= i < |entries| && Damaged(h, blobs, entries[i])
                 && (forall k :: 0 <= k < i ==> !Damaged(h, blobs, entries[k]))
        ensures LoadAll(h, blobs, entries) ==
                Err(if entries[i].fingerprint !in blobs then BlobMissing else BlobFingerprintMismatch)
      {
        if i > 0 {
          assert !Damaged(h, blobs, entries[0]);
          assert rest[i - 1] == entries[i] && forall k :: 0 <= k < i - 1 ==> !Damaged(h, blobs, rest[k]);
        }
      }
    }
  }

  /** A version already held is backed by its blob, so neither store changes. */
  lemma HeldHasBlob(h: Hash, l: Local, r: SourceRecord)
    requires LocalInv(h, l) && GoodRecord(h, r) && Holds(l.index, r.entry)
    ensures r.entry.fingerprint in l.blobs
  {
    var i :| 0 <= i < |l.index| && VersionKey(l.index[i]) == VersionKey(r.entry);
    EntryKeyDecides(l.index[i], r.entry);
    assert l.index[i] in l.index;
    assert ("ver_" + l.index[i].fingerprint)[4..] == l.index[i].fingerprint;
    assert ("ver_" + r.entry.fingerprint)[4..] == r.entry.fingerprint;
  }

  lemma SortAfterSort(sources: seq<Entry>, e: Entry)
    requires DistinctKeys(VersionKey, sources) && !Holds(sources, e)
    ensures SortBy(EntryKey, SortBy(EntryKey, sources) + [e]) == SortBy(EntryKey, sources + [e])
  {
    var index := SortBy(EntryKey, sources);
    SortMembers(EntryKey, sources);
    DistinctIsOrderFree(sources, index);
    HoldsIsOrderFree(index, sources, e);
    AppendDistinct(index, e);
    AppendDistinct(sources, e);
    VersionKeysAreEntryKeys(index + [e]);
    VersionKeysAreEntryKeys(sources + [e]);
    forall x ensures x in index + [e] <==> x in sources + [e] {
      assert x in index <==> x in multiset(index);
      assert x in sources <==> x in multiset(sources);
    }
    SortPermutation(EntryKey, index + [e], sources + [e]);
  }

  lemma MirrorAdd(h: Hash, l: Local, s: Sql, r: SourceRecord)
    requires LocalInv(h, l) && GoodRecord(h, r) && Mirror(l, s)
    ensures Mirror(LocalAdd(h, l, r), SqlAdd(s, r))
  {
    SourcesMirror(s.sources, r.entry);
    if Holds(l.index, r.entry) { HeldHasBlob(h, l, r); }
  }

  lemma SourcesMirror(sources: seq<Entry>, e: Entry)
    requires DistinctKeys(VersionKey, sources)
    ensures var index := SortBy(EntryKey, sources);
            && (Holds(index, e) <==> Holds(sources, e))
            && (!Holds(sources, e) ==>
                  && SortBy(EntryKey, index + [e]) == SortBy(EntryKey, sources + [e])
                  && DistinctKeys(VersionKey, sources + [e]))
  {
    SortMembers(EntryKey, sources);
    HoldsIsOrderFree(SortBy(EntryKey, sources), sources, e);
    if !Holds(sources, e) {
      AppendDistinct(sources, e);
      SortAfterSort(sources, e);
    }
  }

  lemma HoldsIsOrderFree(a: seq<Entry>, b: seq<Entry>, e: Entry)
    requires multiset(a) == multiset(b)
    ensures Holds(a, e) <==> Holds(b, e)
  {
    if Holds(a, e) {
      var i :| 0 <= i < |a| && VersionKey(a[i]) == VersionKey(e);
      assert a[i] in multiset(b);
      var j :| 0 <= j < |b| && b[j] == a[i];
    }
    if Holds(b, e) {
      var i :| 0 <= i < |b| && VersionKey(b[i]) == VersionKey(e);
      assert b[i] in multiset(a);
      var j :| 0 <= j < |a| && a[j] == b[i];
    }
  }

  // ----- every registration sequence

  function LocalAfter(h: Hash, regs: seq<Registration>): Local {
    if regs == [] then EMPTY_LOCAL
    else
      var before := LocalAfter(h, regs[..|regs| - 1]);
      match MakeRecord(h, regs[|regs| - 1])
      case Ok(r) => LocalAdd(h, before, r)
      case Err(_) => before
  }

  function SqlAfter(h: Hash, regs: seq<Registration>): Sql {
    if regs == [] then EMPTY_SQL
    else
      var before := SqlAfter(h, regs[..|regs| - 1]);
      match MakeRecord(h, regs[|regs| - 1])
      case Ok(r) => SqlAdd(before, r)
      case Err(_) => before
  }

  lemma {:induction false} StoresMirror(h: Hash, regs: seq<Registration>)
    ensures LocalInv(h, LocalAfter(h, regs)) && Mirror(LocalAfter(h, regs), SqlAfter(h, regs))
  {
    if regs != [] {
      StoresMirror(h, regs[..|regs| - 1]);
      if MakeRecord(h, regs[|regs| - 1]).Ok? {
        MadeRecord(h, regs[|regs| - 1]);
        var r := MakeRecord(h, regs[|regs| - 1]).value;
        LocalAddInv(h, LocalAfter(h, regs[..|regs| - 1]), r);
        MirrorAdd(h, LocalAfter(h, regs[..|regs| - 1]), SqlAfter(h, regs[..|regs| - 1]), r);
      }
    }
  }

  lemma {:induction false} LoadGood(h: Hash, blobs: map<string, string>, entries: seq<Entry>)
    requires forall e :: e in entries ==> GoodEntry(h, blobs, e)
    ensures LoadAll(h, blobs, entries).Ok? && Entries(LoadAll(h, blobs, entries).value) == entries
    ensures forall r :: r in LoadAll(h, blobs, entries).value ==>
              r.entry in entries && r.entry.fingerprint in blobs && r.content == blobs[r.entry.fingerprint]
  {
    if entries != [] {
      var first, rest := entries[0], entries[1..];
      assert first in entries && entries == [first] + rest;
      LoadGood(h, blobs, rest);
      var r, loaded := SourceRecord(first, blobs[first.fingerprint]), LoadAll(h, blobs, rest).value;
      assert LoadAll(h, blobs, entries) == Ok([r] + loaded);
      assert ([r] + loaded)[1..] == loaded;
    }
  }

  lemma {:induction false} AllOfProject(entries: seq<Entry>)
    ensures OfProject(entries, None) == entries
  {
    if entries != [] {
      AllOfProject(entries[1..]);
      assert entries == [entries[0]] + entries[1..];
    }
  }

  /** For every registration sequence, accepted and refused calls alike, the two
      stores list the same sources, current or with history, for one project or
      all, and the payloads behind their canonical fingerprints are the same. */
  lemma StoresAgree(h: Hash, regs: seq<Registration>, project: Option<string>, history: bool)
    ensures LocalList(h, LocalAfter(h, regs), project, history) == SqlList(h, SqlAfter(h, regs), project, history)
    ensures SqlList(h, SqlAfter(h, regs), None, true).Ok?
    ensures Entries(SqlList(h, SqlAfter(h, regs), None, true).value) == LocalAfter(h, regs).index
  {
    StoresMirror(h, regs);
    var l := LocalAfter(h, regs);
    AllOfProject(l.index);
    LoadGood(h, l.blobs, l.index);
  }

  // ----- the order of registrations does not matter

  ghost predicate AllMade(h: Hash, regs: seq<Registration>) {
    forall i :: 0 <= i < |regs| ==> MakeRecord(h, regs[i]).Ok?
  }

  ghost predicate DistinctVersions(h: Hash, regs: seq<Registration>)
    requires AllMade(h, regs)
  {
    forall i, j :: 0 <= i < j < |regs| ==>
      VersionKey(MakeRecord(h, regs[i]).value.entry) != VersionKey(MakeRecord(h, regs[j]).value.entry)
  }

  ghost predicate Makes(h: Hash, regs: seq<Registration>, e: Entry) {
    exists i :: 0 <= i < |regs| && MakeRecord(h, regs[i]).Ok? && MakeRecord(h, regs[i]).value.entry == e
  }

  lemma {:induction false} NewVersionIsNotHeld(h: Hash, regs: seq<Registration>)
    requires AllMade(h, regs) && DistinctVersions(h, regs) && regs != []
    ensures !Holds(LocalAfter(h, regs[..|regs| - 1]).index, MakeRecord(h, regs[|regs| - 1]).value.entry)
    decreases |regs|, 0
  {
    var init := regs[..|regs| - 1];
    var index, e := LocalAfter(h, init).index, MakeRecord(h, regs[|regs| - 1]).value.entry;
    forall i | 0 <= i < |index| ensures VersionKey(index[i]) != VersionKey(e) {
      IndexedIffMade(h, init, index[i]);
      var j :| 0 <= j < |init| && MakeRecord(h, init[j]).value.entry == index[i];
      assert regs[j] == init[j];
    }
  }

  lemma {:induction false} IndexedIffMade(h: Hash, regs: seq<Registration>, e: Entry)
    requires AllMade(h, regs) && DistinctVersions(h, regs)
    ensures e in LocalAfter(h, regs).index <==> Makes(h, regs, e)
    decreases |regs|, 1
  {
    if regs != [] {
      var init, reg := regs[..|regs| - 1], regs[|regs| - 1];
      IndexedIffMade(h, init, e);
      NewVersionIsNotHeld(h, regs);
      LastIndexed(h, regs, e);
      MakesAppend(h, init, reg, e);
      assert regs == init + [reg];
    }
  }

  lemma LastIndexed(h: Hash, regs: seq<Registration>, e: Entry)
    requires regs != [] && MakeRecord(h, regs[|regs| - 1]).Ok?
    requires !Holds(LocalAfter(h, regs[..|regs| - 1]).index, MakeRecord(h, regs[|regs| - 1]).value.entry)
    ensures e in LocalAfter(h, regs).index <==>
            e in LocalAfter(h, regs[..|regs| - 1]).index || e == MakeRecord(h, regs[|regs| - 1]).value.entry
  {
    AddedMembers(h, LocalAfter(h, regs[..|regs| - 1]), MakeRecord(h, regs[|regs| - 1]).value, e);
  }

  lemma MakesAppend(h: Hash, init: seq<Registration>, reg: Registration, e: Entry)
    ensures Makes(h, init + [reg], e) <==>
            Makes(h, init, e) || (MakeRecord(h, reg).Ok? && MakeRecord(h, reg).value.entry == e)
  {
    var regs := init + [reg];
    if Makes(h, init, e) {
      var i :| 0 <= i < |init| && MakeRecord(h, init[i]).Ok? && MakeRecord(h, init[i]).value.entry == e;
      assert regs[i] == init[i];
    }
    assert regs[|init|] == reg;
    if Makes(h, regs, e) {
      var i :| 0 <= i < |regs| && MakeRecord(h, regs[i]).Ok? && MakeRecord(h, regs[i]).value.entry == e;
      if i < |init| { assert regs[i] == init[i]; }
    }
  }

  /** Two orders of the same registrations of pairwise distinct versions leave the
      same index. */
  lemma RegistrationOrderFree(h: Hash, a: seq<Registration>, b: seq<Registration>)
    requires AllMade(h, a) && AllMade(h, b) && DistinctVersions(h, a) && DistinctVersions(h, b)
    requires forall r :: r in a <==> r in b
    ensures LocalAfter(h, a).index == LocalAfter(h, b).index
  {
    StoresMirror(h, a);
    StoresMirror(h, b);
    forall e ensures e in LocalAfter(h, a).index <==> e in LocalAfter(h, b).index {
      IndexedIffMade(h, a, e);
      IndexedIffMade(h, b, e);
      if Makes(h, a, e) {
        var i :| 0 <= i < |a| && MakeRecord(h, a[i]).Ok? && MakeRecord(h, a[i]).value.entry == e;
        assert a[i] in b;
        var j :| 0 <= j < |b| && b[j] == a[i];
      }
      if Makes(h, b, e) {
        var i :| 0 <= i < |b| && MakeRecord(h, b[i]).Ok? && MakeRecord(h, b[i]).value.entry == e;
        assert b[i] in a;
        var j :| 0 <= j < |a| && a[j] == b[i];
      }
    }
    IncreasingUnique(EntryKey, LocalAfter(h, a).index, LocalAfter(h, b).index);
  }

  ghost predicate Injective(h: Hash) { forall s, t :: h.text(s) == h.text(t) ==> s == t }

  /** With an injective text hash the listings are the same too, contents included. */
  lemma ListingOrderFree(h: Hash, a: seq<Registration>, b: seq<Registration>, project: Option<string>, history: bool)
    requires Injective(h)
    requires AllMade(h, a) && AllMade(h, b) && DistinctVersions(h, a) && DistinctVersions(h, b)
    requires forall r :: r in a <==> r in b
    ensures LocalList(h, LocalAfter(h, a), project, history) == LocalList(h, LocalAfter(h, b), project, history)
  {
    RegistrationOrderFree(h, a, b);
    StoresMirror(h, a);
    StoresMirror(h, b);
    var l, m := LocalAfter(h, a), LocalAfter(h, b);
    var chosen := Select(l.index, project, history);
    forall e | e in chosen
      ensures e.fingerprint in l.blobs && e.fingerprint in m.blobs && l.blobs[e.fingerprint] == m.blobs[e.fingerprint]
    {
      SelectMembers(OfProject(l.index, project), OfProject(l.index, project), project, e);
      SelectMembers(l.index, l.index, project, e);
      assert e in l.index && e in m.index;
    }
    LoadDependsOnBlobs(h, l.blobs, m.blobs, chosen);
  }

  // ----- migration

  function Reregistration(r: SourceRecord): Registration {
    Registration(r.entry.projectId, r.entry.sourceName, Text(r.content), r.entry.captureTime, r.entry.metadata)
  }

  function CopyAll(h: Hash, s: Sql, rs: seq<SourceRecord>): Result<Sql, Error>
    decreases |rs|
  {
    if rs == [] then Ok(s)
    else
      match MakeRecord(h, Reregistration(rs[0]))
      case Err(e) => Err(e)
      case Ok(r) => CopyAll(h, SqlAdd(s, r), rs[1..])
  }

  /** What has been copied when the copying ends, refused or not. */
  function Copied(h: Hash, s: Sql, rs: seq<SourceRecord>): Sql
    decreases |rs|
  {
    if rs == [] then s
    else
      match MakeRecord(h, Reregistration(rs[0]))
      case Err(_) => s
      case Ok(r) => Copied(h, SqlAdd(s, r), rs[1..])
  }

  /** `migrate_from_local_store` into a fresh target. */
  function Migrate(h: Hash, l: Local): Result<Sql, Error> {
    match LocalList(h, l, None, true)
    case Err(e) => Err(e)
    case Ok(rs) => CopyAll(h, EMPTY_SQL, rs)
  }

  predicate Portable(e: Entry) { ValidIdentity(e.projectId, e.sourceName) }

  lemma ReregistrationExact(h: Hash, r: SourceRecord)
    requires GoodRecord(h, r)
    ensures MakeRecord(h, Reregistration(r)) == if Portable(r.entry) then Ok(r) else Err(SourceIdentityInvalid)
  {
    NormalizeTextIdempotent(r.content);
    ReplaceCharRemoves(r.entry.sourceName, '\\', '/');
  }

  lemma {:induction false} CopyAllExact(h: Hash, s: Sql, rs: seq<SourceRecord>)
    requires forall r :: r in rs ==> GoodRecord(h, r)
    requires DistinctKeys(VersionKey, s.sources + Entries(rs))
    ensures CopyAll(h, s, rs).Ok? <==> forall r :: r in rs ==> Portable(r.entry)
    ensures CopyAll(h, s, rs).Ok? ==> CopyAll(h, s, rs).value.sources == s.sources + Entries(rs)
    decreases |rs|
  {
    if rs == [] {
      assert s.sources + Entries(rs) == s.sources;
    } else {
      var r := rs[0];
      assert r in rs && rs == [r] + rs[1..];
      ReregistrationExact(h, r);
      if Portable(r.entry) {
        var all := s.sources + Entries(rs);
        assert all[|s.sources|] == r.entry;
        assert forall i :: 0 <= i < |s.sources| ==> all[i] == s.sources[i];
        assert !Holds(s.sources, r.entry);
        assert s.sources + [r.entry] + Entries(rs[1..]) == all;
        CopyAllExact(h, SqlAdd(s, r), rs[1..]);
      }
    }
  }

  lemma {:induction false} CopyAllBlobs(h: Hash, s: Sql, rs: seq<SourceRecord>, blobs: map<string, string>)
    requires forall r :: r in rs ==>
             GoodRecord(h, r) && r.entry.fingerprint in blobs && r.content == blobs[r.entry.fingerprint]
    requires forall fp :: fp in s.blobs ==> fp in blobs && s.blobs[fp] == blobs[fp]
    ensures CopyAll(h, s, rs).Ok? ==>
              && (forall fp :: fp in CopyAll(h, s, rs).value.blobs ==>
                  fp in blobs && CopyAll(h, s, rs).value.blobs[fp] == blobs[fp])
              && (forall fp :: fp in s.blobs ==> fp in CopyAll(h, s, rs).value.blobs)
              && (forall r :: r in rs ==> r.entry.fingerprint in CopyAll(h, s, rs).value.blobs)
    decreases |rs|
  {
    if rs != [] {
      assert rs[0] in rs && rs == [rs[0]] + rs[1..];
      ReregistrationExact(h, rs[0]);
      if Portable(rs[0].entry) { CopyAllBlobs(h, SqlAdd(s, rs[0]), rs[1..], blobs); }
    }
  }

  lemma {:induction false} LoadDependsOnBlobs(h: Hash, a: map<string, string>, b: map<string, string>,
                                              entries: seq<Entry>)
    requires forall e :: e in entries ==>
             e.fingerprint in a && e.fingerprint in b && a[e.fingerprint] == b[e.fingerprint]
    ensures LoadAll(h, a, entries) == LoadAll(h, b, entries)
  {
    if entries != [] {
      assert entries[0] in entries;
      LoadDependsOnBlobs(h, a, b, entries[1..]);
    }
  }

  lemma {:induction false} SelectMembers(rows: seq<Entry>, among: seq<Entry>, project: Option<string>, e: Entry)
    ensures e in OfProject(rows, project) <==> e in rows && (project.None? || e.projectId == project.value)
    ensures e in LatestOf(rows, among) <==> e in rows && IsLatest(e, among)
  {
    if rows != [] { SelectMembers(rows[1..], among, project, e); }
  }

  /** Migration of any reachable local store succeeds exactly when every indexed
      name is still a valid identity once its backslashes became slashes, and then
      the target lists the same sources and has the source's canonical payload. */
  lemma MigrationExact(h: Hash, regs: seq<Registration>, project: Option<string>, history: bool)
    ensures var l := LocalAfter(h, regs);
            && (Migrate(h, l).Ok? <==> forall e :: e in l.index ==> Portable(e))
            && (Migrate(h, l).Ok? ==>
                  && SortBy(EntryKey, Migrate(h, l).value.sources) == l.index
                  && SqlList(h, Migrate(h, l).value, project, history) == LocalList(h, l, project, history))
  {
    StoresMirror(h, regs);
    var l := LocalAfter(h, regs);
    MigrationCopies(h, l);
    if Migrate(h, l).Ok? {
      SortOfIncreasing(EntryKey, l.index);
      SameSelectionLoads(h, Migrate(h, l).value.blobs, l, project, history);
    }
  }

  lemma MigrationCopies(h: Hash, l: Local)
    requires LocalInv(h, l)
    ensures Migrate(h, l).Ok? <==> forall e :: e in l.index ==> Portable(e)
    ensures Migrate(h, l).Ok? ==> Migrate(h, l).value.sources == l.index
    ensures Migrate(h, l).Ok? ==> forall e :: e in l.index ==> BlobsAgree(Migrate(h, l).value.blobs, l.blobs, e)
  {
    AllOfProject(l.index);
    LoadGood(h, l.blobs, l.index);
    CopyOfLoaded(h, l.blobs, l.index, LoadAll(h, l.blobs, l.index).value);
  }

  lemma CopyOfLoaded(h: Hash, blobs: map<string, string>, index: seq<Entry>, rs: seq<SourceRecord>)
    requires Entries(rs) == index && DistinctKeys(VersionKey, index)
    requires forall r :: r in rs ==>
             GoodRecord(h, r) && r.entry.fingerprint in blobs && r.content == blobs[r.entry.fingerprint]
    ensures CopyAll(h, EMPTY_SQL, rs).Ok? <==> forall e :: e in index ==> Portable(e)
    ensures CopyAll(h, EMPTY_SQL, rs).Ok? ==> CopyAll(h, EMPTY_SQL, rs).value.sources == index
    ensures CopyAll(h, EMPTY_SQL, rs).Ok? ==>
              forall e :: e in index ==> BlobsAgree(CopyAll(h, EMPTY_SQL, rs).value.blobs, blobs, e)
  {
    assert EMPTY_SQL.sources + Entries(rs) == index;
    RecordsAreEntries(rs);
    CopyAllExact(h, EMPTY_SQL, rs);
    CopyAllBlobs(h, EMPTY_SQL, rs, blobs);
  }

  predicate BlobsAgree(a: map<string, string>, b: map<string, string>, e: Entry) {
    e.fingerprint in a && e.fingerprint in b && a[e.fingerprint] == b[e.fingerprint]
  }

  lemma SameSelectionLoads(h: Hash, blobs: map<string, string>, l: Local, project: Option<string>, history: bool)
    requires forall e :: e in l.index ==> BlobsAgree(blobs, l.blobs, e)
    ensures LoadAll(h, blobs, Select(l.index, project, history)) ==
            LoadAll(h, l.blobs, Select(l.index, project, history))
  {
    var chosen := Select(l.index, project, history);
    forall e | e in chosen ensures BlobsAgree(blobs, l.blobs, e) {
      SelectMembers(OfProject(l.index, project), OfProject(l.index, project), project, e);
      SelectMembers(l.index, l.index, project, e);
    }
    LoadDependsOnBlobs(h, blobs, l.blobs, chosen);
  }

  lemma {:induction false} RecordsAreEntries(rs: seq<SourceRecord>)
    ensures forall r :: r in rs ==> r.entry in Entries(rs)
    ensures forall e :: e in Entries(rs) ==> exists r :: r in rs && r.entry == e
  {
    if rs != [] {
      RecordsAreEntries(rs[1..]);
      assert rs == [rs[0]] + rs[1..];
      forall e | e in Entries(rs) ensures exists r :: r in rs && r.entry == e {
        if e == rs[0].entry { assert rs[0] in rs; }
        else {
          var r :| r in rs[1..] && r.entry == e;
          assert r in rs;
        }
      }
    }
  }

  /** A name both stores accept but migration does not: "\\a" is relative on POSIX
      and becomes the absolute "/a". */
  lemma BackslashNameDoesNotMigrate(h: Hash, reg: Registration)
    requires reg == Registration("p", "\\a", Text("x"), "2024-01-01T00:00:00Z", map[])
    ensures MakeRecord(h, reg).Ok? && Migrate(h, LocalAfter(h, [reg])).Err?
  {
    assert Segments("") == [""];
    assert Segments("a") == ["a"] by { assert "a"[1..] == "" && ['a'] + "" == "a" && [""][1..] == []; }
    assert Segments("\\a") == ["\\a"] by { assert "\\a"[1..] == "a" && ['\\'] + "a" == "\\a" && ["a"][1..] == []; }
    var e := MakeRecord(h, reg).value.entry;
    assert !Portable(e) by { assert Slashed("\\a")[0] == '/'; }
    SingleRegistration(h, reg);
    MigrationExact(h, [reg], None, true);
  }

  lemma SingleRegistration(h: Hash, reg: Registration)
    requires MakeRecord(h, reg).Ok?
    ensures MakeRecord(h, reg).value.entry in LocalAfter(h, [reg]).index
  {
    AddedMembers(h, EMPTY_LOCAL, MakeRecord(h, reg).value, MakeRecord(h, reg).value.entry);
    assert [reg][..0] == [];
  }

  lemma AddedMembers(h: Hash, s: Local, r: SourceRecord, e: Entry)
    requires !Holds(s.index, r.entry)
    ensures e in LocalAdd(h, s, r).index <==> e in s.index || e == r.entry
  {
    SortMembers(EntryKey, s.index + [r.entry]);
  }

  // ----- the classes

  lemma {:induction false} OfProjectIncreasing(entries: seq<Entry>, project: Option<string>)
    requires Increasing(EntryKey, entries)
    ensures Increasing(EntryKey, OfProject(entries, project))
  {
    if entries != [] {
      OfProjectIncreasing(entries[1..], project);
      var rest := OfProject(entries[1..], project);
      forall j | 0 <= j < |rest| ensures KeyLess(EntryKey(entries[0]), EntryKey(rest[j])) {
        SelectMembers(entries[1..], [], project, rest[j]);
        assert rest[j] in entries[1..];
        var k :| 0 <= k < |entries[1..]| && entries[1..][k] == rest[j];
        assert entries[k + 1] == rest[j];
      }
    }
  }

  lemma {:induction false} OfProjectDistinct(entries: seq<Entry>, project: Option<string>)
    requires DistinctKeys(VersionKey, entries)
    ensures DistinctKeys(VersionKey, OfProject(entries, project))
  {
    if entries != [] {
      OfProjectDistinct(entries[1..], project);
      var rest := OfProject(entries[1..], project);
      forall j | 0 <= j < |rest| ensures VersionKey(entries[0]) != VersionKey(rest[j]) {
        SelectMembers(entries[1..], [], project, rest[j]);
        assert rest[j] in entries[1..];
        var k :| 0 <= k < |entries[1..]| && entries[1..][k] == rest[j];
        assert entries[k + 1] == rest[j];
      }
    }
  }

  lemma {:induction false} LatestIncreasing(entries: seq<Entry>, among: seq<Entry>)
    requires Increasing(EntryKey, entries)
    ensures Increasing(EntryKey, LatestOf(entries, among))
  {
    if entries != [] {
      LatestIncreasing(entries[1..], among);
      var rest := LatestOf(entries[1..], among);
      forall j | 0 <= j < |rest| ensures KeyLess(EntryKey(entries[0]), EntryKey(rest[j])) {
        SelectMembers(entries[1..], among, None, rest[j]);
        assert rest[j] in entries[1..];
        var k :| 0 <= k < |entries[1..]| && entries[1..][k] == rest[j];
        assert entries[k + 1] == rest[j];
      }
    }
  }

  lemma NewerOrder(a: Entry, b: Entry)
    ensures !Newer(a, a) && !(Newer(a, b) && Newer(b, a))
    ensures !Newer(a, b) && !Newer(b, a) ==> a.captureTime == b.captureTime && a.versionId == b.versionId
  {
    StrOrder(a.captureTime, b.captureTime);
    StrOrder(a.versionId, b.versionId);
    StrOrder(a.captureTime, a.captureTime);
    StrOrder(a.versionId, a.versionId);
  }

  lemma NewerTransitive(a: Entry, b: Entry, c: Entry)
    requires Newer(a, b) && !Newer(c, b)
    ensures !Newer(c, a)
  {
    NewerOrder(b, c);
    NewerOrder(a, c);
    if Newer(c, a) { NewerChain(c, a, b); }
  }

  lemma NewerChain(a: Entry, b: Entry, c: Entry)
    requires Newer(a, b) && Newer(b, c)
    ensures Newer(a, c)
  {
    if StrLess(c.captureTime, b.captureTime) && StrLess(b.captureTime, a.captureTime) {
      StrTransitive(c.captureTime, b.captureTime, a.captureTime);
    } else if a.captureTime == b.captureTime == c.captureTime {
      StrTransitive(c.versionId, b.versionId, a.versionId);
    }
  }

  /** The `latest` dictionary of `list_sources`, with its insertion order. */
  datatype Table = Table(latest: map<string, Entry>, order: seq<string>)

  function Put(t: Table, item: Entry): Table {
    var key := item.sourceId;
    Table(if key !in t.latest || Newer(item, t.latest[key]) then t.latest[key := item] else t.latest,
          if key in t.latest then t.order else t.order + [key])
  }

  function Filled(rows: seq<Entry>): Table {
    if rows == [] then Table(map[], []) else Put(Filled(rows[..|rows| - 1]), rows[|rows| - 1])
  }

  lemma FilledStep(rows: seq<Entry>, n: nat)
    requires n < |rows|
    ensures Filled(rows[..n + 1]) == Put(Filled(rows[..n]), rows[n])
  {
    assert rows[..n + 1][..n] == rows[..n];
  }

  /** Each source seen is there once, with its latest row. */
  ghost predicate LatestTable(t: Table, rows: seq<Entry>) {
    && (forall i, j :: 0 <= i < j < |t.order| ==> t.order[i] != t.order[j])
    && (forall k :: k in t.order <==> k in t.latest)
    && (forall k :: k in t.latest ==> t.latest[k] in rows && t.latest[k].sourceId == k && IsLatest(t.latest[k], rows))
    && (forall e :: e in rows ==> e.sourceId in t.latest)
  }

  lemma {:induction false} FilledIsLatest(rows: seq<Entry>)
    ensures LatestTable(Filled(rows), rows)
  {
    if rows != [] {
      var init := rows[..|rows| - 1];
      FilledIsLatest(init);
      PutKeepsLatest(Filled(init), init, rows[|rows| - 1], Filled(rows), rows);
    }
  }

  lemma PutKeepsLatest(t: Table, rows: seq<Entry>, item: Entry, t': Table, rows': seq<Entry>)
    requires LatestTable(t, rows) && t' == Put(t, item) && rows' == rows + [item]
    ensures LatestTable(t', rows')
  {
    var key, latest' := item.sourceId, t'.latest;
    assert forall e :: e in rows' <==> e in rows || e == item;
    forall k | k in latest' ensures IsLatest(latest'[k], rows') {
      forall i | 0 <= i < |rows'| && rows'[i].sourceId == latest'[k].sourceId ensures !Newer(rows'[i], latest'[k]) {
        NewerOrder(item, item);
        if i < |rows| {
          assert rows[i] in rows;
          if k == key && key in t.latest && Newer(item, t.latest[key]) {
            NewerTransitive(item, t.latest[key], rows[i]);
          }
        }
      }
    }
  }

  /** The values of the finished dictionary, sorted, are the latest rows in order. */
  lemma LatestTableSorted(latest: map<string, Entry>, order: seq<string>, rows: seq<Entry>, values: seq<Entry>)
    requires Table(latest, order) == Filled(rows)
    requires Increasing(EntryKey, rows) && DistinctKeys(VersionKey, rows)
    requires |values| == |order| && forall i :: 0 <= i < |order| ==> order[i] in latest && values[i] == latest[order[i]]
    ensures SortBy(EntryKey, values) == LatestOf(rows, rows)
  {
    FilledIsLatest(rows);
    forall i, j | 0 <= i < j < |values| ensures EntryKey(values[i]) != EntryKey(values[j]) {
      EntryKeyDecides(values[i], values[j]);
    }
    SortIncreasing(EntryKey, values);
    SortMembers(EntryKey, values);
    LatestIncreasing(rows, rows);
    forall e ensures e in SortBy(EntryKey, values) <==> e in LatestOf(rows, rows) {
      SelectMembers(rows, rows, None, e);
      assert e in SortBy(EntryKey, values) <==> e in multiset(values);
      if e in values {
        var i :| 0 <= i < |values| && values[i] == e;
        assert order[i] in latest;
      }
      if e in rows && IsLatest(e, rows) {
        OnlyLatest(e, latest[e.sourceId], rows);
        var i :| 0 <= i < |order| && order[i] == e.sourceId;
        assert values[i] == e;
      }
    }
    IncreasingUnique(EntryKey, SortBy(EntryKey, values), LatestOf(rows, rows));
  }

  lemma OnlyLatest(a: Entry, b: Entry, rows: seq<Entry>)
    requires a in rows && b in rows && a.sourceId == b.sourceId && IsLatest(a, rows) && IsLatest(b, rows)
    requires DistinctKeys(VersionKey, rows)
    ensures a == b
  {
    var i :| 0 <= i < |rows| && rows[i] == a;
    var j :| 0 <= j < |rows| && rows[j] == b;
    NewerOrder(a, b);
    assert VersionKey(rows[i]) == VersionKey(rows[j]);
  }

  /** The selection loop of `list_sources`. */
  method SelectRows(rows: seq<Entry>, project: Option<string>, history: bool) returns (r: seq<Entry>)
    requires Increasing(EntryKey, rows) && DistinctKeys(VersionKey, rows)
    ensures r == Select(rows, project, history)
  {
    var raw := OfProject(rows, project);
    OfProjectIncreasing(rows, project);
    OfProjectDistinct(rows, project);
    if history {
      SortOfIncreasing(EntryKey, raw);
      return SortBy(EntryKey, raw);
    }
    r := LatestRows(raw);
  }

  /** The latest row of each source, sorted. */
  method LatestRows(raw: seq<Entry>) returns (r: seq<Entry>)
    requires Increasing(EntryKey, raw) && DistinctKeys(VersionKey, raw)
    ensures r == LatestOf(raw, raw)
  {
    var latest, order := FillTable(raw);
    FilledIsLatest(raw);
    assert forall k :: k in order ==> k in latest;
    var values := seq(|order|, i requires 0 <= i < |order| => latest[order[i]]);
    LatestTableSorted(latest, order, raw, values);
    r := SortBy(EntryKey, values);
  }

  /** The loop that fills `latest` row by row. */
  method FillTable(raw: seq<Entry>) returns (latest: map<string, Entry>, order: seq<string>)
    ensures Table(latest, order) == Filled(raw)
  {
    latest, order := map[], [];
    var n := 0;
    while n < |raw|
      invariant 0 <= n <= |raw|
      invariant Table(latest, order) == Filled(raw[..n])
    {
      FilledStep(raw, n);
      var item := raw[n];
      var key := item.sourceId;
      if key !in latest {
        order := order + [key];
        latest := latest[key := item];
      } else if Newer(item, latest[key]) {
        latest := latest[key := item];
      }
      n := n + 1;
    }
    assert raw[..n] == raw;
  }

  /** `LocalStore`. */
  class LocalStore {
    const h: Hash
    var index: seq<Entry>
    var blobs: map<string, string>

    ghost predicate Valid()
      reads this
    {
      IndexInv(index)
    }

    constructor (h: Hash)
      ensures Valid() && Local(index, blobs) == EMPTY_LOCAL && this.h == h
    {
      this.h := h;
      index, blobs := [], map[];
    }

    /** `register_bytes`. */
    method RegisterBytes(r: Registration) returns (record: Result<SourceRecord, Error>)
      requires Valid()
      modifies this
      ensures Valid() && (LocalInv(h, old(Local(index, blobs))) ==> LocalInv(h, Local(index, blobs)))
      ensures record == MakeRecord(h, r)
      ensures Local(index, blobs) ==
              match MakeRecord(h, r)
              case Ok(m) => LocalAdd(h, old(Local(index, blobs)), m)
              case Err(_) => old(Local(index, blobs))
    {
      record := MakeRecord(h, r);
      if record.Err? { return; }
      var m := record.value;
      MadeRecord(h, r);
      if LocalInv(h, Local(index, blobs)) { LocalAddInv(h, Local(index, blobs), m); }
      if !Holds(index, m.entry) {
        SortedInsertion(index, m.entry);
        if m.entry.fingerprint !in blobs || h.text(blobs[m.entry.fingerprint]) != m.entry.fingerprint {
          blobs := blobs[m.entry.fingerprint := m.content];
        }
        index := index + [m.entry];
        index := SortBy(EntryKey, index);
      }
    }

    /** `list_sources`. */
    method ListSources(project: Option<string>, history: bool) returns (r: Result<seq<SourceRecord>, Error>)
      requires Valid()
      ensures r == LocalList(h, Local(index, blobs), project, history)
    {
      var chosen := SelectRows(index, project, history);
      r := LoadAll(h, blobs, chosen);
    }
  }

  /** `SQLiteStore` without a blob cipher. */
  class SQLiteStore {
    const h: Hash
    var created: bool  // whether the database file exists
    var blobs: map<string, string>
    var sources: seq<Entry>

    ghost predicate Valid()
      reads this
    {
      DistinctKeys(VersionKey, sources) && (!created ==> Sql(blobs, sources) == EMPTY_SQL)
    }

    constructor (h: Hash)
      ensures Valid() && Sql(blobs, sources) == EMPTY_SQL && this.h == h && !created
    {
      this.h := h;
      created, blobs, sources := false, map[], [];
    }

    /** `initialize`. */
    method Initialize()
      requires Valid()
      modifies this`created
      ensures Valid() && created
    {
      created := true;
    }

    /** `register_bytes`: one transaction. */
    method RegisterBytes(r: Registration) returns (record: Result<SourceRecord, Error>)
      requires Valid()
      modifies this
      ensures Valid()
      ensures record == MakeRecord(h, r) && created == (old(created) || record.Ok?)
      ensures Sql(blobs, sources) ==
              match MakeRecord(h, r)
              case Ok(m) => SqlAdd(old(Sql(blobs, sources)), m)
              case Err(_) => old(Sql(blobs, sources))
    {
      record := MakeRecord(h, r);
      if record.Err? { return; }
      created := true;
      var m := record.value;
      if m.entry.fingerprint !in blobs { blobs := blobs[m.entry.fingerprint := m.content]; }
      if !Holds(sources, m.entry) {
        AppendDistinct(sources, m.entry);
        sources := sources + [m.entry];
      }
    }

    /** `list_sources`: rows come ordered from the query. */
    method ListSources(project: Option<string>, history: bool) returns (r: Result<seq<SourceRecord>, Error>)
      requires Valid()
      ensures r == SqlList(h, Sql(blobs, sources), project, history)
    {
      var rows := SortBy(EntryKey, sources);
      VersionKeysAreEntryKeys(sources);
      SortIncreasing(EntryKey, sources);
      SortMembers(EntryKey, sources);
      DistinctIsOrderFree(sources, rows);
      var chosen := SelectRows(rows, project, history);
      r := LoadAll(h, blobs, chosen);
    }

    /** `migrate_from_local_store`: an existing target is refused and left alone;
        on any later error the records copied so far stay. */
    method MigrateFrom(source: LocalStore) returns (r: Result<nat, Error>)
      requires Valid() && source.Valid() && source.h == h
      modifies this
      ensures Valid()
      ensures old(created) ==>
              r == Err(MigrationTargetExists) && created && Sql(blobs, sources) == old(Sql(blobs, sources))
      ensures !old(created) ==>
                match LocalList(h, Local(source.index, source.blobs), None, true)
                case Err(e) => r == Err(e) && !created && Sql(blobs, sources) == EMPTY_SQL
                case Ok(records) =>
                  && created && Sql(blobs, sources) == Copied(h, EMPTY_SQL, records)
                  && match Migrate(h, Local(source.index, source.blobs))
                     case Ok(target) => r == Ok(|records|) && Sql(blobs, sources) == target
                     case Err(e) => r == Err(e)
    {
      if created { return Err(MigrationTargetExists); }
      var listed := source.ListSources(None, true);
      if listed.Err? { return Err(listed.error); }
      var records := listed.value;
      Initialize();
      var n := 0;
      while n < |records|
        invariant 0 <= n <= |records|
        invariant Valid() && created
        invariant CopyAll(h, Sql(blobs, sources), records[n..]) == CopyAll(h, EMPTY_SQL, records)
        invariant Copied(h, Sql(blobs, sources), records[n..]) == Copied(h, EMPTY_SQL, records)
      {
        var one := RegisterBytes(Reregistration(records[n]));
        assert records[n..][1..] == records[n + 1..];
        if one.Err? { return Err(one.error); }
        n := n + 1;
      }
      return Ok(|records|);
    }
  }
}
