/** What `list_sources` promises (`pmiri/store.py`), said of capture times, version
    ids and contents themselves: the newest version of every source, once, in order. */
module Listing {
  import opened Ordering
  import opened Store

  predicate InScope(e: Entry, project: Option<string>) { project.None? || e.projectId == project.value }

  /** `x` was captured later than `e`, or at the same time under a later version id. */
  predicate Supersedes(x: Entry, e: Entry) {
    StrLess(e.captureTime, x.captureTime) || (e.captureTime == x.captureTime && StrLess(e.versionId, x.versionId))
  }

  lemma SelectedEntry(rows: seq<Entry>, project: Option<string>, history: bool, e: Entry)
    ensures e in Select(rows, project, history) <==>
            && e in rows && InScope(e, project)
            && (history || forall x :: x in rows && InScope(x, project) && x.sourceId == e.sourceId ==>
                !Supersedes(x, e))
  {
    var raw := OfProject(rows, project);
    SelectMembers(rows, rows, project, e);
    SelectMembers(raw, raw, project, e);
    if e in raw && IsLatest(e, raw) {
      forall x | x in rows && InScope(x, project) && x.sourceId == e.sourceId ensures !Supersedes(x, e) {
        SelectMembers(rows, rows, project, x);
        var i :| 0 <= i < |raw| && raw[i] == x;
      }
    }
    if e in raw && (forall x :: x in rows && InScope(x, project) && x.sourceId == e.sourceId ==> !Supersedes(x, e)) {
      forall i | 0 <= i < |raw| && raw[i].sourceId == e.sourceId ensures !Newer(raw[i], e) {
        assert raw[i] in raw;
        SelectMembers(rows, rows, project, raw[i]);
      }
    }
  }

  /** Every source has a version no other supersedes. */
  lemma {:induction false} NewestExists(rows: seq<Entry>, project: Option<string>, x: Entry) returns (e: Entry)
    requires x in rows && InScope(x, project)
    ensures e in Select(rows, project, false) && e.sourceId == x.sourceId
  {
    var raw := OfProject(rows, project);
    SelectMembers(rows, rows, project, x);
    FilledIsLatest(raw);
    e := Filled(raw).latest[x.sourceId];
    SelectMembers(raw, raw, project, e);
  }

  /** On a sound store every listing succeeds and shows exactly the selected entries,
      each with the content its fingerprint was taken of. */
  lemma Listed(h: Hash, s: Local, project: Option<string>, history: bool) returns (rs: seq<SourceRecord>)
    requires LocalInv(h, s)
    ensures LocalList(h, s, project, history) == Ok(rs) && Entries(rs) == Select(s.index, project, history)
    ensures forall r :: r in rs ==>
              && r.entry in s.index && InScope(r.entry, project)
              && h.text(r.content) == r.entry.fingerprint && r.entry.fingerprint in s.blobs
              && r.content == s.blobs[r.entry.fingerprint]
  {
    var chosen := Select(s.index, project, history);
    forall e | e in chosen ensures GoodEntry(h, s.blobs, e) { SelectedEntry(s.index, project, history, e); }
    LoadGood(h, s.blobs, chosen);
    rs := LoadAll(h, s.blobs, chosen).value;
    forall r | r in rs
      ensures r.entry in s.index && InScope(r.entry, project) && h.text(r.content) == r.entry.fingerprint {
      SelectedEntry(s.index, project, history, r.entry);
      assert GoodEntry(h, s.blobs, r.entry);
    }
  }

  /** A currently listed version was captured no earlier than any indexed version of
      its source, and no lower in version id than any captured with it. */
  lemma CurrentIsNewest(h: Hash, s: Local, project: Option<string>, rs: seq<SourceRecord>, e: Entry, x: Entry)
    requires LocalInv(h, s) && LocalList(h, s, project, false) == Ok(rs) && e in Entries(rs)
    requires x in s.index && InScope(x, project) && x.sourceId == e.sourceId
    ensures e in s.index && InScope(e, project)
    ensures !StrLess(e.captureTime, x.captureTime)
    ensures e.captureTime == x.captureTime ==> !StrLess(e.versionId, x.versionId)
  {
    var _ := Listed(h, s, project, false);
    SelectedEntry(s.index, project, false, e);
    assert !Supersedes(x, e);
  }

  /** Of each source in scope exactly one version is listed. */
  lemma EverySourceOnce(h: Hash, s: Local, project: Option<string>, rs: seq<SourceRecord>, x: Entry) returns (e: Entry)
    requires LocalInv(h, s) && LocalList(h, s, project, false) == Ok(rs) && x in s.index && InScope(x, project)
    ensures e in Entries(rs) && e.sourceId == x.sourceId
    ensures forall o :: o in Entries(rs) && o.sourceId == x.sourceId ==> o == e
  {
    var _ := Listed(h, s, project, false);
    e := NewestExists(s.index, project, x);
    forall o | o in Select(s.index, project, false) && o.sourceId == x.sourceId ensures o == e {
      SelectedEntry(s.index, project, false, o);
      SelectedEntry(s.index, project, false, e);
      assert !Supersedes(o, e) && !Supersedes(e, o);
      StrOrder(o.captureTime, e.captureTime);
      StrOrder(o.versionId, e.versionId);
      SameVersion(s.index, o, e);
    }
  }

  /** A listing with history leaves nothing in scope out. */
  lemma HistoryIsComplete(h: Hash, s: Local, project: Option<string>, rs: seq<SourceRecord>, e: Entry)
    requires LocalInv(h, s) && LocalList(h, s, project, true) == Ok(rs)
    ensures e in Entries(rs) <==> e in s.index && InScope(e, project)
  {
    var _ := Listed(h, s, project, true);
    SelectedEntry(s.index, project, true, e);
  }

  /** Listings are in order of project, then source id, then version id. */
  lemma ListingInOrder(h: Hash, s: Local, project: Option<string>, history: bool, rs: seq<SourceRecord>)
    requires LocalInv(h, s) && LocalList(h, s, project, history) == Ok(rs)
    ensures forall i, j :: 0 <= i < j < |rs| ==>
              TripleLess(rs[i].entry.projectId, rs[i].entry.sourceId, rs[i].entry.versionId,
                         rs[j].entry.projectId, rs[j].entry.sourceId, rs[j].entry.versionId)
  {
    var _ := Listed(h, s, project, history);
    var raw, chosen := OfProject(s.index, project), Select(s.index, project, history);
    OfProjectIncreasing(s.index, project);
    LatestIncreasing(raw, raw);
    EntriesAt(rs);
    forall i, j | 0 <= i < j < |rs|
      ensures TripleLess(rs[i].entry.projectId, rs[i].entry.sourceId, rs[i].entry.versionId,
                         rs[j].entry.projectId, rs[j].entry.sourceId, rs[j].entry.versionId)
    {
      assert KeyLess(EntryKey(chosen[i]), EntryKey(chosen[j]));
      KeyLessMeans(EntryKey(chosen[i]), EntryKey(chosen[j]));
    }
  }

  lemma {:induction false} EntriesAt(rs: seq<SourceRecord>)
    ensures |Entries(rs)| == |rs| && forall i :: 0 <= i < |rs| ==> Entries(rs)[i] == rs[i].entry
  {
    if rs != [] { EntriesAt(rs[1..]); }
  }

  lemma SameVersion(index: seq<Entry>, a: Entry, b: Entry)
    requires DistinctKeys(VersionKey, index) && a in index && b in index
    requires a.sourceId == b.sourceId && a.versionId == b.versionId
    ensures a == b
  {
    var i :| 0 <= i < |index| && index[i] == a;
    var j :| 0 <= j < |index| && index[j] == b;
    assert VersionKey(index[i]) == VersionKey(index[j]);
  }

  lemma {:induction false} HeldForever(h: Hash, regs: seq<Registration>, n: nat, e: Entry)
    requires n <= |regs| && Holds(LocalAfter(h, regs[..n]).index, e)
    ensures Holds(LocalAfter(h, regs).index, e)
    decreases |regs| - n
  {
    if n == |regs| {
      assert regs[..n] == regs;
    } else {
      var before, after := LocalAfter(h, regs[..n]), LocalAfter(h, regs[..n + 1]);
      assert regs[..n + 1][..n] == regs[..n];
      if MakeRecord(h, regs[n]).Ok? { AddKeepsHeld(h, before, MakeRecord(h, regs[n]).value, e); }
      HeldForever(h, regs, n + 1, e);
    }
  }

  lemma AddKeepsHeld(h: Hash, s: Local, r: SourceRecord, e: Entry)
    requires Holds(s.index, e)
    ensures Holds(LocalAdd(h, s, r).index, e)
  {
    var i :| 0 <= i < |s.index| && VersionKey(s.index[i]) == VersionKey(e);
    if !Holds(s.index, r.entry) {
      AddedMembers(h, s, r, s.index[i]);
      var index := LocalAdd(h, s, r).index;
      var k :| 0 <= k < |index| && index[k] == s.index[i];
    }
  }

  lemma AddHolds(h: Hash, s: Local, r: SourceRecord)
    ensures Holds(LocalAdd(h, s, r).index, r.entry)
  {
    if !Holds(s.index, r.entry) {
      AddedMembers(h, s, r, r.entry);
      var index := LocalAdd(h, s, r).index;
      var k :| 0 <= k < |index| && index[k] == r.entry;
    }
  }

  /** Nothing registered is lost: after every registration sequence the history of its
      project shows each accepted registration's source, version and normalized text. */
  lemma NothingRegisteredIsLost(h: Hash, regs: seq<Registration>, k: nat, rs: seq<SourceRecord>)
    returns (r: SourceRecord)
    requires Injective(h) && k < |regs| && MakeRecord(h, regs[k]).Ok?
    requires LocalList(h, LocalAfter(h, regs), None, true) == Ok(rs)
    ensures r in rs && r.content == NormalizeText(regs[k].raw.text)
    ensures r.entry.versionId == MakeRecord(h, regs[k]).value.entry.versionId
    ensures r.entry.sourceId == MakeRecord(h, regs[k]).value.entry.sourceId
  {
    var m, s := MakeRecord(h, regs[k]).value, LocalAfter(h, regs);
    MadeRecord(h, regs[k]);
    assert regs[..k + 1][..k] == regs[..k];
    AddHolds(h, LocalAfter(h, regs[..k]), m);
    HeldForever(h, regs, k + 1, m.entry);
    StoresMirror(h, regs);
    var i :| 0 <= i < |s.index| && VersionKey(s.index[i]) == VersionKey(m.entry);
    EntryKeyDecides(s.index[i], m.entry);
    var _ := Listed(h, s, None, true);
    HistoryIsComplete(h, s, None, rs, s.index[i]);
    RecordsAreEntries(rs);
    r :| r in rs && r.entry == s.index[i];
    SameTextOf(h, s, r, m);
  }

  lemma SameTextOf(h: Hash, s: Local, r: SourceRecord, m: SourceRecord)
    requires Injective(h) && LocalInv(h, s) && r.entry in s.index && GoodRecord(h, m)
    requires h.text(r.content) == r.entry.fingerprint && r.entry.versionId == m.entry.versionId
    ensures r.content == m.content
  {
    assert GoodEntry(h, s.blobs, r.entry);
    assert ("ver_" + r.entry.fingerprint)[4..] == r.entry.fingerprint;
    assert ("ver_" + m.entry.fingerprint)[4..] == m.entry.fingerprint;
  }

  /** Two versions of one source, registered in either order: the one captured later
      is what the current listing of the project shows, and nothing else. */
  lemma LaterCaptureIsListed(h: Hash, a: Registration, b: Registration, regs: seq<Registration>)
    requires MakeRecord(h, a).Ok? && MakeRecord(h, b).Ok? && (regs == [a, b] || regs == [b, a])
    requires var x, y := MakeRecord(h, a).value.entry, MakeRecord(h, b).value.entry;
             x.projectId == y.projectId && x.sourceId == y.sourceId && x.versionId != y.versionId
    requires StrLess(a.captureTime, b.captureTime)
    ensures var s := LocalAfter(h, regs);
            LocalList(h, s, Some(b.projectId), false).Ok?
            && Entries(LocalList(h, s, Some(b.projectId), false).value) == [MakeRecord(h, b).value.entry]
  {
    var s, x, y := LocalAfter(h, regs), MakeRecord(h, a).value.entry, MakeRecord(h, b).value.entry;
    StoresMirror(h, regs);
    var rs := Listed(h, s, Some(b.projectId), false);
    StrOrder(a.captureTime, b.captureTime);
    forall e ensures e in s.index <==> e == x || e == y { TwoIndexed(h, a, b, regs, e); }
    NoRepeats(s.index, Some(b.projectId));
    OnlyTheLater(s.index, x, y, Select(s.index, Some(b.projectId), false));
  }

  lemma TwoIndexed(h: Hash, a: Registration, b: Registration, regs: seq<Registration>, e: Entry)
    requires MakeRecord(h, a).Ok? && MakeRecord(h, b).Ok? && (regs == [a, b] || regs == [b, a])
    requires MakeRecord(h, a).value.entry.versionId != MakeRecord(h, b).value.entry.versionId
    ensures e in LocalAfter(h, regs).index <==> e == MakeRecord(h, a).value.entry || e == MakeRecord(h, b).value.entry
  {
    assert regs[0] == a || regs[0] == b;
    assert regs[1] == a || regs[1] == b;
    assert VersionKey(MakeRecord(h, a).value.entry).parts[1] != VersionKey(MakeRecord(h, b).value.entry).parts[1];
    IndexedIffMade(h, regs, e);
  }

  lemma NoRepeats(index: seq<Entry>, project: Option<string>)
    requires Increasing(EntryKey, index)
    ensures var listed := Select(index, project, false);
            forall i, j :: 0 <= i < j < |listed| ==> listed[i] != listed[j]
  {
    var raw := OfProject(index, project);
    OfProjectIncreasing(index, project);
    LatestIncreasing(raw, raw);
    var listed := Select(index, project, false);
    forall i, j | 0 <= i < j < |listed| ensures listed[i] != listed[j] {
      KeyOrder(EntryKey(listed[i]), EntryKey(listed[i]));
    }
  }

  lemma OnlyTheLater(index: seq<Entry>, x: Entry, y: Entry, listed: seq<Entry>)
    requires listed == Select(index, Some(y.projectId), false) && DistinctKeys(VersionKey, index)
    requires forall e :: e in index <==> e == x || e == y
    requires x.projectId == y.projectId && x.sourceId == y.sourceId && x != y
    requires StrLess(x.captureTime, y.captureTime) && !StrLess(y.captureTime, x.captureTime)
             && x.captureTime != y.captureTime
    requires forall i, j :: 0 <= i < j < |listed| ==> listed[i] != listed[j]
    ensures listed == [y]
  {
    assert |listed| > 1 ==> listed[0] != listed[1] && listed[0] in listed && listed[1] in listed;
    SelectedEntry(index, Some(y.projectId), false, x);
    SelectedEntry(index, Some(y.projectId), false, y);
    assert Supersedes(y, x);
    StrOrder(y.versionId, y.versionId);
    StrOrder(y.captureTime, y.captureTime);
    forall e | e in listed ensures e == y { SelectedEntry(index, Some(y.projectId), false, e); }
    assert listed[0] in listed;
  }

  /** January's "x" and February's "y" under one name: February's is current. */
  lemma FebruaryIsCurrent(h: Hash, a: Registration, b: Registration, regs: seq<Registration>)
    requires h.text("x") != h.text("y") && regs == [a, b]
    requires a == Registration("p", "n", Text("x"), "2024-01-01T00:00:00Z", map[])
    requires b == Registration("p", "n", Text("y"), "2024-02-01T00:00:00Z", map[])
    ensures var listed := LocalList(h, LocalAfter(h, regs), Some("p"), false);
            && listed.Ok? && |listed.value| == 1
            && listed.value[0].entry.captureTime == "2024-02-01T00:00:00Z"
            && listed.value[0].entry.fingerprint == h.text("y")
  {
    PlainRecord(h, a);
    PlainRecord(h, b);
    assert ("ver_" + h.text("x"))[4..] == h.text("x") && ("ver_" + h.text("y"))[4..] == h.text("y");
    JanuaryBeforeFebruary(a.captureTime, b.captureTime);
    LaterCaptureIsListed(h, a, b, regs);
    EntriesAt(LocalList(h, LocalAfter(h, regs), Some("p"), false).value);
  }

  lemma JanuaryBeforeFebruary(a: string, b: string)
    requires a == "2024-01-01T00:00:00Z" && b == "2024-02-01T00:00:00Z"
    ensures StrLess(a, b)
  {
    assert a[..6] == "2024-0" == b[..6];
    assert DecidesAt(a, b, 6);
    StrLessMeans(a, b);
  }

  lemma PlainRecord(h: Hash, r: Registration)
    requires r.projectId == "p" && r.sourceName == "n" && r.raw.Text? && '\r' !in r.raw.text
    ensures MakeRecord(h, r) ==
            Ok(SourceRecord(Entry(h.name("p", "n"), "ver_" + h.text(r.raw.text), "p", "n", h.text(r.raw.text),
                                  r.captureTime,
                                  r.metadata), r.raw.text))
  {
    NormalizeTextIdempotent(r.raw.text);
    assert Segments("n") == ["n"] by { assert "n"[1..] == "" && ['n'] + "" == "n" && [""][1..] == []; }
    assert Slashed("n") == "n" by { assert "n"[1..] == ""; }
  }
}
