/** Crash safety of `LocalStore.register_bytes` (`pmiri/store.py`): the steps it
    takes under the write lock, blob first and index last, each file written to a
    temporary name and moved into place, with a crash allowed between any two. */
module StoreCrash {
  import opened Ordering
  import opened Store

  /** Where the lock holder is.  `written` is what has reached a temporary file. */
  datatype Phase =
    | Idle
    | Looked(record: SourceRecord)
    | WritingBlob(record: SourceRecord, written: string)
    | BlobInPlace(record: SourceRecord)
    | WritingIndex(record: SourceRecord, next: seq<Entry>, done: bool)

  /** `committed` lists the records whose index entry has been put in place. */
  datatype Disk = Disk(index: seq<Entry>, blobs: map<string, string>, phase: Phase, committed: seq<SourceRecord>)

  datatype Step = Begin(registration: Registration) | WriteBlobStep(written: string) | Continue | Crash

  /** One step.  Steps that do not fit the phase leave the disk alone. */
  function Next(h: Hash, d: Disk, s: Step): Disk {
    match s
    case Crash => d.(phase := Idle)
    case Begin(reg) =>
      if d.phase != Idle then d
      else (
        match MakeRecord(h, reg)
        case Ok(r) => if Holds(d.index, r.entry) then d else d.(phase := Looked(r))
        case Err(_) => d)
    case WriteBlobStep(written) =>
      if d.phase.WritingBlob? && d.phase.written <= written <= d.phase.record.content
      then d.(phase := WritingBlob(d.phase.record, written)) else d
    case Continue =>
      match d.phase
      case Idle => d
      case Looked(r) =>
        var fp := r.entry.fingerprint;
        if fp in d.blobs && h.text(d.blobs[fp]) == fp then d.(phase := BlobInPlace(r))
        else d.(phase := WritingBlob(r, ""))
      case WritingBlob(r, written) =>
        if written == r.content then d.(blobs := d.blobs[r.entry.fingerprint := written], phase := BlobInPlace(r))
        else d
      case BlobInPlace(r) => d.(phase := WritingIndex(r, SortBy(EntryKey, d.index + [r.entry]), false))
      case WritingIndex(r, next, false) => d.(phase := WritingIndex(r, next, true))
      case WritingIndex(r, next, true) => d.(index := next, phase := Idle, committed := d.committed + [r])
  }

  const FRESH := Disk([], map[], Idle, [])

  function After(h: Hash, steps: seq<Step>): Disk {
    if steps == [] then FRESH else Next(h, After(h, steps[..|steps| - 1]), steps[|steps| - 1])
  }

  /** The atomic store after the committed records. */
  function Atomic(h: Hash, records: seq<SourceRecord>): Local {
    if records == [] then EMPTY_LOCAL else LocalAdd(h, Atomic(h, records[..|records| - 1]), records[|records| - 1])
  }

  ghost predicate Inv(h: Hash, d: Disk) {
    && LocalInv(h, Local(d.index, d.blobs))
    && d.index == Atomic(h, d.committed).index
    && match d.phase
       case Idle => true
       case Looked(r) => GoodRecord(h, r) && !Holds(d.index, r.entry)
       case WritingBlob(r, written) =>
         GoodRecord(h, r) && !Holds(d.index, r.entry) && r.entry.fingerprint !in d.blobs && written <= r.content
       case BlobInPlace(r) => GoodRecord(h, r) && !Holds(d.index, r.entry) && r.entry.fingerprint in d.blobs
       case WritingIndex(r, next, _) =>
         GoodRecord(h, r) && !Holds(d.index, r.entry) && r.entry.fingerprint in d.blobs &&
         next == SortBy(EntryKey, d.index + [r.entry])
  }

  /** What one step may change: entries and blobs only ever get added. */
  ghost predicate Grows(d: Disk, e: Disk) {
    && (forall x :: x in d.index ==> x in e.index)
    && (forall fp :: fp in d.blobs ==> fp in e.blobs && e.blobs[fp] == d.blobs[fp])
    && d.committed <= e.committed
  }

  lemma BlobMove(h: Hash, d: Disk, r: SourceRecord)
    requires Inv(h, d) && d.phase == WritingBlob(r, r.content)
    ensures Inv(h, Next(h, d, Continue)) && Grows(d, Next(h, d, Continue))
  {
    var e := Next(h, d, Continue);
    forall x | x in e.index ensures GoodEntry(h, e.blobs, x) {
      assert GoodEntry(h, d.blobs, x);
    }
  }

  lemma IndexMove(h: Hash, d: Disk, r: SourceRecord, next: seq<Entry>)
    requires Inv(h, d) && d.phase == WritingIndex(r, next, true)
    ensures Inv(h, Next(h, d, Continue)) && Grows(d, Next(h, d, Continue))
  {
    SortedInsertion(d.index, r.entry);
    var records := d.committed + [r];
    assert records[..|records| - 1] == d.committed;
    assert next == Atomic(h, records).index;
  }

  lemma StepKeeps(h: Hash, d: Disk, s: Step)
    requires Inv(h, d)
    ensures Inv(h, Next(h, d, s)) && Grows(d, Next(h, d, s))
  {
    match s
    case Begin(reg) => if MakeRecord(h, reg).Ok? { MadeRecord(h, reg); }
    case WriteBlobStep(_) =>
    case Crash =>
    case Continue =>
      match d.phase
      case WritingBlob(r, written) => if written == r.content { BlobMove(h, d, r); }
      case WritingIndex(r, next, true) => IndexMove(h, d, r, next);
      case _ =>
  }

  lemma {:induction false} RunInv(h: Hash, steps: seq<Step>)
    ensures Inv(h, After(h, steps))
  {
    if steps != [] {
      RunInv(h, steps[..|steps| - 1]);
      StepKeeps(h, After(h, steps[..|steps| - 1]), steps[|steps| - 1]);
    }
  }

  /** In every reachable state, crashes anywhere included, each index entry has a
      blob with its hash, and the index is the one the atomic store would have
      after the committed records. */
  lemma CrashSafe(h: Hash, steps: seq<Step>)
    ensures var d := After(h, steps);
            && (forall e :: e in d.index ==>
                e.fingerprint in d.blobs && h.text(d.blobs[e.fingerprint]) == e.fingerprint)
            && d.index == Atomic(h, d.committed).index
  {
    RunInv(h, steps);
    var d := After(h, steps);
    forall e | e in d.index ensures e.fingerprint in d.blobs && h.text(d.blobs[e.fingerprint]) == e.fingerprint {
      assert GoodEntry(h, d.blobs, e);
    }
  }

  /** Whatever happens next, a committed entry stays as it is, with its blob. */
  lemma {:induction false} CommittedForever(h: Hash, steps: seq<Step>, more: seq<Step>)
    ensures Grows(After(h, steps), After(h, steps + more))
  {
    if more == [] {
      assert steps + more == steps;
    } else {
      var all := steps + more;
      assert all[..|all| - 1] == steps + more[..|more| - 1];
      CommittedForever(h, steps, more[..|more| - 1]);
      LastStepGrows(h, all);
      GrowsTransitive(After(h, steps), After(h, all[..|all| - 1]), After(h, all));
    }
  }

  lemma LastStepGrows(h: Hash, steps: seq<Step>)
    requires steps != []
    ensures Grows(After(h, steps[..|steps| - 1]), After(h, steps))
  {
    RunInv(h, steps[..|steps| - 1]);
    StepKeeps(h, After(h, steps[..|steps| - 1]), steps[|steps| - 1]);
  }

  lemma GrowsTransitive(a: Disk, b: Disk, c: Disk)
    requires Grows(a, b) && Grows(b, c)
    ensures Grows(a, c)
  {
    forall fp | fp in a.blobs ensures fp in c.blobs && c.blobs[fp] == a.blobs[fp] {
      assert fp in b.blobs;
    }
  }

  /** A crash loses nothing but the unfinished call: readers see what they saw. */
  lemma CrashIsInvisible(h: Hash, steps: seq<Step>, project: Option<string>, history: bool)
    ensures var d, c := After(h, steps), Next(h, After(h, steps), Crash);
            && LocalList(h, Local(c.index, c.blobs), project, history) ==
               LocalList(h, Local(d.index, d.blobs), project, history)
            && LocalList(h, Local(d.index, d.blobs), project, history).Ok?
  {
    RunInv(h, steps);
    var d := After(h, steps);
    var chosen := Select(d.index, project, history);
    forall e | e in chosen ensures GoodEntry(h, d.blobs, e) {
      SelectMembers(OfProject(d.index, project), OfProject(d.index, project), project, e);
      SelectMembers(d.index, d.index, project, e);
    }
    LoadGood(h, d.blobs, chosen);
  }

  /** An undisturbed call, from lock to index: five steps and the entry is there. */
  lemma CallCommits(h: Hash, d: Disk, reg: Registration)
    requires Inv(h, d) && d.phase == Idle && MakeRecord(h, reg).Ok?
    ensures var r := MakeRecord(h, reg).value;
            var d1 := Next(h, Next(h, d, Begin(reg)), Continue);
            var d2 := Next(h, Next(h, d1, WriteBlobStep(r.content)), Continue);
            var d3 := if d1.phase.BlobInPlace? then d1 else d2;
            var d4 := Next(h, Next(h, Next(h, d3, Continue), Continue), Continue);
            Local(d4.index, d4.blobs) == LocalAdd(h, Local(d.index, d.blobs), r) && d4.phase == Idle
  {
    MadeRecord(h, reg);
    var r := MakeRecord(h, reg).value;
    if !Holds(d.index, r.entry) {
      BlobSteps(h, d.(phase := Looked(r)), r);
      IndexSteps(h, d.(phase := BlobInPlace(r), blobs := WriteBlob(h, d.blobs, r)), r);
    }
  }

  lemma BlobSteps(h: Hash, d: Disk, r: SourceRecord)
    requires d.phase == Looked(r)
    ensures var d1 := Next(h, d, Continue);
            var d2 := Next(h, Next(h, d1, WriteBlobStep(r.content)), Continue);
            (if d1.phase.BlobInPlace? then d1 else d2) == d.(phase := BlobInPlace(r), blobs := WriteBlob(h, d.blobs, r))
  {
  }

  lemma IndexSteps(h: Hash, d: Disk, r: SourceRecord)
    requires d.phase == BlobInPlace(r)
    ensures Next(h, Next(h, Next(h, d, Continue), Continue), Continue) ==
            d.(phase := Idle, index := SortBy(EntryKey, d.index + [r.entry]), committed := d.committed + [r])
  {
  }
}
