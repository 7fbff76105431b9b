/** Bounded context compilation (`pmiri/context.py`).

    `Units` says what the packing works on: an ungrouped item alone, a conflict
    group as a whole at the place of its first item.  `Packed` is the greedy rule
    on units without the loop's counters. */
module Context {
  import opened Ordering
  import opened Fingerprints
  import opened Evidence

  function Line(i: EvidenceItem): string { "[" + i.evidenceRef + " | " + i.anchor + "] " + i.text }

  /** `"\n".join(...)` of the rendered items. */
  function Render(items: seq<EvidenceItem>): string {
    if items == [] then "" else if |items| == 1 then Line(items[0]) else Line(items[0]) + "\n" + Render(items[1..])
  }

  function InGroup(items: seq<EvidenceItem>, group: string): seq<EvidenceItem> {
    if items == [] then []
    else
      (if items[0].conflictGroup == Some(group) then [items[0]] else []) + InGroup(items[1..], group)
  }

  /** `groups.get(group, [item])`: a listed group whole, an unlisted one item by item. */
  function UnitOf(item: EvidenceItem, e: EvidenceSet): seq<EvidenceItem> {
    if Grouped(item) && item.conflictGroup.value in e.conflictGroups then InGroup(e.items, item.conflictGroup.value)
    else [item]
  }

  /** The units still to come, given the groups already handled. */
  function UnitsFrom(rest: seq<EvidenceItem>, e: EvidenceSet, seen: set<string>): seq<seq<EvidenceItem>>
    decreases |rest|
  {
    if rest == [] then []
    else if !Grouped(rest[0]) then [[rest[0]]] + UnitsFrom(rest[1..], e, seen)
    else if rest[0].conflictGroup.value in seen then UnitsFrom(rest[1..], e, seen)
    else [UnitOf(rest[0], e)] + UnitsFrom(rest[1..], e, seen + {rest[0].conflictGroup.value})
  }

  function Units(e: EvidenceSet): seq<seq<EvidenceItem>> { UnitsFrom(e.items, e, {}) }

  /** A unit is taken when the text with it stays within the bound; after the
      first unit the program leaves one more character unused. */
  predicate Fits(bound: nat, selected: seq<EvidenceItem>, unit: seq<EvidenceItem>) {
    |Render(selected + unit)| + (if selected == [] then 0 else 1) <= bound
  }

  function LedgerEntry(unit: seq<EvidenceItem>): Omission
    requires unit != []
  {
    if Grouped(unit[0]) then Omission(ConflictGroupExceedsContextBound, unit[0].conflictGroup.value)
    else Omission(ContextBound, unit[0].evidenceRef)
  }

  datatype Packing = Packing(selected: seq<EvidenceItem>, omitted: seq<seq<EvidenceItem>>)

  function Packed(bound: nat, units: seq<seq<EvidenceItem>>, so: Packing): Packing
    decreases |units|
  {
    if units == [] then so
    else if Fits(bound, so.selected, units[0]) then
      Packed(bound, units[1..], so.(selected := so.selected + units[0]))
    else
      Packed(bound, units[1..], so.(omitted := so.omitted + [units[0]]))
  }

  predicate AllNonEmpty(units: seq<seq<EvidenceItem>>) { forall i :: 0 <= i < |units| ==> units[i] != [] }

  function Ledger(omitted: seq<seq<EvidenceItem>>): seq<Omission>
    requires AllNonEmpty(omitted)
  {
    if omitted == [] then [] else Ledger(omitted[..|omitted| - 1]) + [LedgerEntry(omitted[|omitted| - 1])]
  }

  function Refs(items: seq<EvidenceItem>): seq<string> {
    seq(|items|, i requires 0 <= i < |items| => items[i].evidenceRef)
  }

  function Citations(items: seq<EvidenceItem>): seq<string> {
    seq(|items|, i requires 0 <= i < |items| => items[i].anchor)
  }

  /** Every conflict group with two or more items is listed; retrieval lists all. */
  ghost predicate RepeatsListed(e: EvidenceSet) {
    forall g: string :: g != "" && |InGroup(e.items, g)| >= 2 ==> g in e.conflictGroups
  }

  // ----- rendering

  lemma {:induction false} RenderAppend(a: seq<EvidenceItem>, b: seq<EvidenceItem>)
    requires b != []
    ensures |Render(a + b)| == |Render(a)| + (if a == [] then 0 else 1) + |Render(b)|
  {
    if a == [] {
      assert a + b == b;
    } else {
      assert (a + b)[1..] == a[1..] + b;
      RenderAppend(a[1..], b);
      if |a| == 1 { assert Render(a[1..]) == ""; }
    }
  }

  lemma {:induction false} RenderLine(items: seq<EvidenceItem>, i: EvidenceItem)
    requires items != []
    ensures Render(items + [i]) == Render(items) + "\n" + Line(i)
  {
    var all, rest := items + [i], items[1..];
    assert all[0] == items[0] && all[1..] == rest + [i];
    var head := Line(items[0]) + "\n";
    if rest == [] {
      assert rest + [i] == [i];
    } else {
      RenderLine(rest, i);
      assert head + (Render(rest) + "\n" + Line(i)) == head + Render(rest) + "\n" + Line(i);
    }
  }

  /** The text, item by item: reference, anchor and the item's own text on a line. */
  lemma RenderSnoc(items: seq<EvidenceItem>, i: EvidenceItem)
    ensures Render(items + [i]) ==
            (if items == [] then "" else Render(items) + "\n")
              + ("[" + i.evidenceRef + " | " + i.anchor + "] " + i.text)
  {
    if items == [] { assert items + [i] == [i] && "" + Line(i) == Line(i); } else { RenderLine(items, i); }
  }

  // ----- groups

  lemma {:induction false} InGroupMembers(items: seq<EvidenceItem>, group: string)
    ensures forall x :: x in InGroup(items, group) ==> x in items && x.conflictGroup == Some(group)
    ensures forall x :: x in items && x.conflictGroup == Some(group) ==> x in InGroup(items, group)
  {
    if items != [] {
      InGroupMembers(items[1..], group);
      assert items == [items[0]] + items[1..];
    }
  }

  lemma {:induction false} InGroupAppend(a: seq<EvidenceItem>, b: seq<EvidenceItem>, group: string)
    ensures InGroup(a + b, group) == InGroup(a, group) + InGroup(b, group)
  {
    if a == [] {
      assert a + b == b;
    } else {
      var ab := a + b;
      assert ab[0] == a[0] && ab[1..] == a[1..] + b;
      InGroupAppend(a[1..], b, group);
      var head := if a[0].conflictGroup == Some(group) then [a[0]] else [];
      assert head + (InGroup(a[1..], group) + InGroup(b, group)) == (head + InGroup(a[1..], group)) + InGroup(b, group);
    }
  }

  lemma {:induction false} OneGroup(items: seq<EvidenceItem>, group: string, other: string)
    requires forall x :: x in items ==> x.conflictGroup == Some(group)
    ensures InGroup(items, other) == if other == group then items else []
  {
    if items != [] {
      assert items[0] in items;
      OneGroup(items[1..], group, other);
      assert items == [items[0]] + items[1..];
    }
  }

  // ----- the units partition the items

  function Flatten(units: seq<seq<EvidenceItem>>): seq<EvidenceItem> {
    if units == [] then [] else units[0] + Flatten(units[1..])
  }

  /** What is left of `items` when the groups already seen are taken out. */
  function Without(items: seq<EvidenceItem>, seen: set<string>): seq<EvidenceItem> {
    if items == [] then []
    else
      (if Grouped(items[0]) && items[0].conflictGroup.value in seen then [] else [items[0]]) + Without(items[1..], seen)
  }

  lemma {:induction false} TakeOutGroup(items: seq<EvidenceItem>, seen: set<string>, group: string)
    requires group != "" && group !in seen
    ensures multiset(Without(items, seen)) == multiset(InGroup(items, group)) + multiset(Without(items, seen + {group}))
  {
    if items != [] { TakeOutGroup(items[1..], seen, group); }
  }

  lemma {:induction false} NothingSeen(items: seq<EvidenceItem>)
    ensures Without(items, {}) == items
  {
    if items != [] {
      NothingSeen(items[1..]);
      assert items == [items[0]] + items[1..];
    }
  }

  /** A group not seen yet lies wholly in the rest. */
  ghost predicate Remaining(rest: seq<EvidenceItem>, all: seq<EvidenceItem>, seen: set<string>) {
    forall g: string :: g !in seen ==> InGroup(all, g) == InGroup(rest, g)
  }

  lemma RemainingStep(rest: seq<EvidenceItem>, all: seq<EvidenceItem>, seen: set<string>)
    requires rest != [] && Remaining(rest, all, seen)
    ensures !Grouped(rest[0]) ==> Remaining(rest[1..], all, seen + {""})
    ensures Grouped(rest[0]) ==> Remaining(rest[1..], all, seen + {rest[0].conflictGroup.value})
  {
  }

  lemma {:induction false} UnitsPartition(rest: seq<EvidenceItem>, e: EvidenceSet, seen: set<string>)
    requires Remaining(rest, e.items, seen + {""}) && RepeatsListed(e)
    ensures multiset(Flatten(UnitsFrom(rest, e, seen))) == multiset(Without(rest, seen))
    decreases |rest|
  {
    if rest != [] {
      RemainingStep(rest, e.items, seen + {""});
      if !Grouped(rest[0]) {
        assert seen + {""} + {""} == seen + {""};
        UnitsPartition(rest[1..], e, seen);
        FlattenCons([rest[0]], UnitsFrom(rest[1..], e, seen));
      } else {
        var g := rest[0].conflictGroup.value;
        if g in seen {
          assert seen + {""} + {g} == seen + {""};
          UnitsPartition(rest[1..], e, seen);
        } else {
          assert seen + {""} + {g} == seen + {g} + {""};
          UnitsPartition(rest[1..], e, seen + {g});
          UnitIsGroup(rest, e, seen);
          FlattenCons(UnitOf(rest[0], e), UnitsFrom(rest[1..], e, seen + {g}));
          TakeOutGroup(rest, seen, g);
        }
      }
    }
  }

  lemma UnitIsGroup(rest: seq<EvidenceItem>, e: EvidenceSet, seen: set<string>)
    requires rest != [] && Grouped(rest[0]) && rest[0].conflictGroup.value !in seen
    requires Remaining(rest, e.items, seen + {""}) && RepeatsListed(e)
    ensures UnitOf(rest[0], e) == InGroup(e.items, rest[0].conflictGroup.value) ==
            InGroup(rest, rest[0].conflictGroup.value)
  {
    var g := rest[0].conflictGroup.value;
    assert g !in seen + {""};
    if g !in e.conflictGroups {
      assert InGroup(rest, g) == [rest[0]] + InGroup(rest[1..], g);
      assert |InGroup(rest, g)| == 1;
    }
  }

  lemma FlattenCons(unit: seq<EvidenceItem>, units: seq<seq<EvidenceItem>>)
    ensures multiset(Flatten([unit] + units)) == multiset(unit) + multiset(Flatten(units))
  {
    assert ([unit] + units)[1..] == units;
  }

  lemma {:induction false} UnitsNonEmpty(rest: seq<EvidenceItem>, e: EvidenceSet, seen: set<string>)
    requires forall x :: x in rest ==> x in e.items
    ensures AllNonEmpty(UnitsFrom(rest, e, seen))
    ensures forall i :: 0 <= i < |UnitsFrom(rest, e, seen)| ==> UnitsFrom(rest, e, seen)[i][0] in e.items
    decreases |rest|
  {
    if rest != [] {
      assert rest[0] in rest;
      if !Grouped(rest[0]) || rest[0].conflictGroup.value in seen {
        UnitsNonEmpty(rest[1..], e, seen);
      } else {
        UnitsNonEmpty(rest[1..], e, seen + {rest[0].conflictGroup.value});
        InGroupMembers(e.items, rest[0].conflictGroup.value);
        assert UnitOf(rest[0], e) != [] && UnitOf(rest[0], e)[0] in UnitOf(rest[0], e);
      }
    }
  }

  // ----- what the greedy rule guarantees

  lemma {:induction false} PackedKeeps(bound: nat, units: seq<seq<EvidenceItem>>, so: Packing)
    requires |Render(so.selected)| <= bound && AllNonEmpty(units) && AllNonEmpty(so.omitted)
    ensures var p := Packed(bound, units, so);
            && |Render(p.selected)| <= bound
            && AllNonEmpty(p.omitted)
            && multiset(p.selected) + multiset(Flatten(p.omitted)) ==
               multiset(so.selected) + multiset(Flatten(so.omitted)) + multiset(Flatten(units))
    decreases |units|
  {
    if units != [] {
      if Fits(bound, so.selected, units[0]) {
        PackedKeeps(bound, units[1..], so.(selected := so.selected + units[0]));
      } else {
        FlattenSnoc(so.omitted, units[0]);
        PackedKeeps(bound, units[1..], so.(omitted := so.omitted + [units[0]]));
      }
    }
  }

  lemma {:induction false} FlattenSnoc(units: seq<seq<EvidenceItem>>, unit: seq<EvidenceItem>)
    ensures Flatten(units + [unit]) == Flatten(units) + unit
  {
    if units == [] {
      assert units + [unit] == [unit] && [unit][1..] == [];
    } else {
      FlattenSnoc(units[1..], unit);
      assert (units + [unit])[1..] == units[1..] + [unit];
    }
  }

  function Pack(bound: nat, e: EvidenceSet): Packing { Packed(bound, Units(e), Packing([], [])) }

  lemma PackFacts(bound: nat, e: EvidenceSet)
    ensures AllNonEmpty(Pack(bound, e).omitted) && |Render(Pack(bound, e).selected)| <= bound
    ensures multiset(Pack(bound, e).selected) + multiset(Flatten(Pack(bound, e).omitted)) == multiset(Flatten(Units(e)))
  {
    UnitsNonEmpty(e.items, e, {});
    PackedKeeps(bound, Units(e), Packing([], []));
  }

  /** `ContextCompiler.compile` as a value. */
  function Compiled(bound: nat, e: EvidenceSet): ContextArtifact {
    PackFacts(bound, e);
    var p := Pack(bound, e);
    ContextArtifact(bound, Render(p.selected), e.coverage,
                    if e.Disposition() == Empty then Empty else if p.omitted != [] then Degraded else e.Disposition(),
                    Refs(p.selected), Citations(p.selected), e.authorizationLineage, Ledger(p.omitted))
  }

  /** The loop of `compile`. */
  method Compile(maxChars: nat, e: EvidenceSet) returns (r: ContextArtifact)
    requires maxChars >= 128
    ensures r == Compiled(maxChars, e)
  {
    var selected: seq<EvidenceItem> := [];
    var used := 0;
    var omitted: seq<Omission> := [];
    var handled: set<string> := {};
    ghost var left: seq<seq<EvidenceItem>> := [];
    PackFacts(maxChars, e);
    assert e.items[0..] == e.items;
    for n := 0 to |e.items|
      invariant AllNonEmpty(left) && omitted == Ledger(left)
      invariant used == if selected == [] then 0 else |Render(selected)| + 1
      invariant Packed(maxChars, UnitsFrom(e.items[n..], e, handled), Packing(selected, left)) == Pack(maxChars, e)
    {
      var item := e.items[n];
      assert e.items[n..][0] == item && e.items[n..][1..] == e.items[n + 1..];
      if Grouped(item) && item.conflictGroup.value in handled { continue; }
      var groupItems := UnitOf(item, e);
      UnitNonEmpty(e, n);
      RenderAppend(selected, groupItems);
      ghost var units := UnitsFrom(e.items[n..], e, handled);
      assert units[0] == groupItems;
      var block := Render(groupItems);
      if used + |block| + (if selected != [] then 1 else 0) <= maxChars {
        selected := selected + groupItems;
        used := used + |block| + (if selected != [] then 1 else 0);
      } else {
        if Grouped(item) {
          omitted := omitted + [Omission(ConflictGroupExceedsContextBound, item.conflictGroup.value)];
        } else {
          omitted := omitted + [Omission(ContextBound, item.evidenceRef)];
        }
        LedgerSnoc(left, groupItems);
        left := left + [groupItems];
      }
      if Grouped(item) { handled := handled + {item.conflictGroup.value}; }
      assert units[1..] == UnitsFrom(e.items[n + 1..], e, handled);
    }
    assert UnitsFrom(e.items[|e.items|..], e, handled) == [];
    var disposition := e.Disposition();
    if omitted != [] && disposition != Empty { disposition := Degraded; }
    r := ContextArtifact(maxChars, Render(selected), e.coverage, disposition, Refs(selected), Citations(selected),
                         e.authorizationLineage, omitted);
    LedgerLength(left);
  }

  lemma LedgerSnoc(left: seq<seq<EvidenceItem>>, unit: seq<EvidenceItem>)
    requires AllNonEmpty(left) && unit != []
    ensures AllNonEmpty(left + [unit]) && Ledger(left + [unit]) == Ledger(left) + [LedgerEntry(unit)]
  {
    assert (left + [unit])[..|left|] == left;
  }

  lemma {:induction false} LedgerLength(left: seq<seq<EvidenceItem>>)
    requires AllNonEmpty(left)
    ensures |Ledger(left)| == |left|
    ensures forall i :: 0 <= i < |left| ==> Ledger(left)[i] == LedgerEntry(left[i])
  {
    if left != [] { LedgerLength(left[..|left| - 1]); }
  }

  /** The unit begins with the item, or with the first item of its group. */
  lemma UnitNonEmpty(e: EvidenceSet, n: nat)
    requires n < |e.items|
    ensures var u := UnitOf(e.items[n], e);
            && u != []
            && LedgerEntry(u) == if Grouped(e.items[n])
                                 then Omission(ConflictGroupExceedsContextBound, e.items[n].conflictGroup.value)
                                 else Omission(ContextBound, e.items[n].evidenceRef)
  {
    var u := UnitOf(e.items[n], e);
    assert e.items[n] in e.items;
    if Grouped(e.items[n]) {
      InGroupMembers(e.items, e.items[n].conflictGroup.value);
      assert u != [] && u[0] in u;
    }
  }

  // ----- every item is selected once or in an omitted unit, and when that fails

  lemma {:induction false} UnitsCount(rest: seq<EvidenceItem>, e: EvidenceSet, seen: set<string>, g: string)
    requires Remaining(rest, e.items, seen + {""}) && g != "" && g !in e.conflictGroups
    ensures |Flatten(UnitsFrom(rest, e, seen))|
            + (if g !in seen && |InGroup(rest, g)| >= 2 then 1 else 0) <= |Without(rest, seen)|
    decreases |rest|
  {
    if rest != [] {
      RemainingStep(rest, e.items, seen + {""});
      if !Grouped(rest[0]) {
        assert seen + {""} + {""} == seen + {""};
        UnitsCount(rest[1..], e, seen, g);
        FlattenCons([rest[0]], UnitsFrom(rest[1..], e, seen));
      } else {
        var k := rest[0].conflictGroup.value;
        if k in seen {
          assert seen + {""} + {k} == seen + {""};
          UnitsCount(rest[1..], e, seen, g);
        } else {
          assert seen + {""} + {k} == seen + {k} + {""};
          UnitsCount(rest[1..], e, seen + {k}, g);
          assert k !in seen + {""};
          FlattenCons(UnitOf(rest[0], e), UnitsFrom(rest[1..], e, seen + {k}));
          GroupSize(rest, seen, k);
        }
      }
    }
  }

  lemma GroupSize(rest: seq<EvidenceItem>, seen: set<string>, k: string)
    requires k !in seen && k != ""
    ensures |Without(rest, seen)| == |InGroup(rest, k)| + |Without(rest, seen + {k})|
  {
    TakeOutGroup(rest, seen, k);
    assert |multiset(Without(rest, seen))| == |InGroup(rest, k)| + |Without(rest, seen + {k})|;
  }

  /** At every bound, selected items and omitted units together are exactly the
      evidence, if and only if every repeated conflict group is listed. */
  lemma ConservationExact(bound: nat, e: EvidenceSet)
    ensures multiset(Pack(bound, e).selected) + multiset(Flatten(Pack(bound, e).omitted)) == multiset(e.items) <==>
            RepeatsListed(e)
  {
    PackFacts(bound, e);
    NothingSeen(e.items);
    assert {} + {""} == {""};
    if RepeatsListed(e) {
      UnitsPartition(e.items, e, {});
    } else {
      var g: string :| g != "" && |InGroup(e.items, g)| >= 2 && g !in e.conflictGroups;
      UnitsCount(e.items, e, {}, g);
      assert |multiset(Flatten(Units(e)))| < |multiset(e.items)|;
    }
  }

  /** An unlisted group of two loses its second item without a trace. */
  lemma UnlistedGroupLosesAnItem(bound: nat, a: EvidenceItem, b: EvidenceItem, request: Request, lineage: Ref)
    requires a != b && a.conflictGroup == b.conflictGroup == Some("g") && |Line(a)| <= bound
    ensures var e := EvidenceSet(request, [a, b], Complete, lineage, []);
            b !in Pack(bound, e).selected && Compiled(bound, e).omissionLedger == []
  {
    var e := EvidenceSet(request, [a, b], Complete, lineage, []);
    assert [a, b][1..] == [b] && [b][1..] == [];
    assert UnitsFrom([b], e, {"g"}) == [];
    assert {} + {"g"} == {"g"};
    assert UnitsFrom([a, b], e, {}) == [[a]];
    assert [] + [a] == [a];
    assert Fits(bound, [], [a]);
    assert [[a]][1..] == [];
    assert Pack(bound, e) == Packed(bound, [], Packing([a], [])) == Packing([a], []);
  }

  // ----- conflict groups are wholly in or wholly out

  ghost predicate OmitsGroup(omitted: seq<seq<EvidenceItem>>, g: string) {
    exists i :: 0 <= i < |omitted| && omitted[i] != []
      && LedgerEntry(omitted[i]) == Omission(ConflictGroupExceedsContextBound, g)
  }

  lemma OmitsSnoc(omitted: seq<seq<EvidenceItem>>, unit: seq<EvidenceItem>, g: string)
    requires unit != []
    ensures OmitsGroup(omitted + [unit], g) <==>
            OmitsGroup(omitted, g) || LedgerEntry(unit) == Omission(ConflictGroupExceedsContextBound, g)
  {
    var all := omitted + [unit];
    if OmitsGroup(omitted, g) {
      var i :| 0 <= i < |omitted| && omitted[i] != []
        && LedgerEntry(omitted[i]) == Omission(ConflictGroupExceedsContextBound, g);
      assert all[i] == omitted[i];
    }
    assert all[|omitted|] == unit;
    if OmitsGroup(all, g) {
      var i :| 0 <= i < |all| && all[i] != [] && LedgerEntry(all[i]) == Omission(ConflictGroupExceedsContextBound, g);
      if i < |omitted| { assert all[i] == omitted[i]; }
    }
  }

  /** Whether a group was met among the items before `rest`, and what became of it. */
  ghost predicate GroupState(e: EvidenceSet, seen: set<string>, so: Packing, g: string) {
    if g !in seen then InGroup(so.selected, g) == [] && !OmitsGroup(so.omitted, g)
    else if OmitsGroup(so.omitted, g) then InGroup(so.selected, g) == []
    else InGroup(so.selected, g) == InGroup(e.items, g)
  }

  lemma GroupStateUnit(bound: nat, e: EvidenceSet, seen: set<string>, so: Packing, g: string, unit: seq<EvidenceItem>,
                       k: string)
    requires g != "" && k != "" && unit != [] && unit == InGroup(e.items, k) && k !in seen && GroupState(e, seen, so, g)
    ensures GroupState(e, seen + {k}, so.(selected := so.selected + unit), g)
    ensures GroupState(e, seen + {k}, so.(omitted := so.omitted + [unit]), g)
  {
    InGroupMembers(e.items, k);
    OneGroup(unit, k, g);
    InGroupAppend(so.selected, unit, g);
    assert unit[0] in unit;
    OmitsSnoc(so.omitted, unit, g);
  }

  lemma GroupStateSingle(e: EvidenceSet, seen: set<string>, so: Packing, g: string, item: EvidenceItem)
    requires g != "" && !Grouped(item) && GroupState(e, seen, so, g)
    ensures GroupState(e, seen, so.(selected := so.selected + [item]), g)
    ensures GroupState(e, seen, so.(omitted := so.omitted + [[item]]), g)
  {
    InGroupAppend(so.selected, [item], g);
    assert InGroup([item], g) == [] by { assert [item][1..] == []; }
    OmitsSnoc(so.omitted, [item], g);
  }

  lemma {:induction false} GroupPacked(bound: nat, rest: seq<EvidenceItem>, e: EvidenceSet, seen: set<string>,
                                       so: Packing, g: string)
    requires g != "" && RepeatsListed(e) && Remaining(rest, e.items, seen + {""}) && GroupState(e, seen, so, g)
    ensures var p := Packed(bound, UnitsFrom(rest, e, seen), so);
            if g !in seen && InGroup(rest, g) == [] then InGroup(p.selected, g) == [] && !OmitsGroup(p.omitted, g)
            else InGroup(p.selected, g) == if OmitsGroup(p.omitted, g) then [] else InGroup(e.items, g)
    decreases |rest|
  {
    if rest != [] {
      RemainingStep(rest, e.items, seen + {""});
      var units := UnitsFrom(rest, e, seen);
      if !Grouped(rest[0]) {
        assert seen + {""} + {""} == seen + {""};
        GroupStateSingle(e, seen, so, g, rest[0]);
        assert units[1..] == UnitsFrom(rest[1..], e, seen);
        if Fits(bound, so.selected, units[0]) {
          GroupPacked(bound, rest[1..], e, seen, so.(selected := so.selected + units[0]), g);
        }
        else { GroupPacked(bound, rest[1..], e, seen, so.(omitted := so.omitted + [units[0]]), g); }
      } else {
        var k := rest[0].conflictGroup.value;
        if k in seen {
          assert seen + {""} + {k} == seen + {""};
          GroupPacked(bound, rest[1..], e, seen, so, g);
        } else {
          assert seen + {""} + {k} == seen + {k} + {""};
          UnitIsGroup(rest, e, seen);
          GroupStateUnit(bound, e, seen, so, g, units[0], k);
          assert units[1..] == UnitsFrom(rest[1..], e, seen + {k});
          if Fits(bound, so.selected, units[0]) {
            GroupPacked(bound, rest[1..], e, seen + {k}, so.(selected := so.selected + units[0]), g);
          }
          else { GroupPacked(bound, rest[1..], e, seen + {k}, so.(omitted := so.omitted + [units[0]]), g); }
        }
      }
    }
  }

  /** A conflict group is selected whole and in order, or not at all; it is not
      selected exactly when the ledger names it. */
  lemma GroupsAllOrNothing(bound: nat, e: EvidenceSet, g: string)
    requires RepeatsListed(e) && g != "" && InGroup(e.items, g) != []
    ensures InGroup(Pack(bound, e).selected, g) ==
            if Omission(ConflictGroupExceedsContextBound, g) in Compiled(bound, e).omissionLedger then []
            else InGroup(e.items, g)
  {
    PackFacts(bound, e);
    assert {} + {""} == {""};
    GroupPacked(bound, e.items, e, {}, Packing([], []), g);
    LedgerLength(Pack(bound, e).omitted);
  }

  // ----- the bound

  lemma RenderPrefix(a: seq<EvidenceItem>, b: seq<EvidenceItem>)
    ensures |Render(a)| <= |Render(a + b)|
  {
    if b == [] { assert a + b == a; } else { RenderAppend(a, b); }
  }

  lemma {:induction false} PackedOmitsMore(bound: nat, units: seq<seq<EvidenceItem>>, so: Packing)
    ensures |Packed(bound, units, so).omitted| >= |so.omitted|
    decreases |units|
  {
    if units != [] {
      if Fits(bound, so.selected, units[0]) {
        PackedOmitsMore(bound, units[1..], so.(selected := so.selected + units[0]));
      }
      else { PackedOmitsMore(bound, units[1..], so.(omitted := so.omitted + [units[0]])); }
    }
  }

  /** The room that packing a list of units behind what is selected takes. */
  function Room(selected: seq<EvidenceItem>, units: seq<seq<EvidenceItem>>): nat {
    |Render(selected + Flatten(units))| + if units == [] || (selected == [] && |units| == 1) then 0 else 1
  }

  lemma RoomOfFirst(bound: nat, units: seq<seq<EvidenceItem>>, selected: seq<EvidenceItem>)
    requires units != [] && AllNonEmpty(units)
    ensures Room(selected, units) <= bound <==>
            Fits(bound, selected, units[0]) && (units[1..] == [] || Room(selected + units[0], units[1..]) <= bound)
  {
    assert selected + Flatten(units) == selected + units[0] + Flatten(units[1..]);
    RenderPrefix(selected + units[0], Flatten(units[1..]));
    if units[1..] == [] { assert selected + units[0] + Flatten(units[1..]) == selected + units[0]; }
  }

  lemma {:induction false} PackedWholeIff(bound: nat, units: seq<seq<EvidenceItem>>, so: Packing)
    requires AllNonEmpty(units)
    ensures Packed(bound, units, so).omitted == so.omitted <==> units == [] || Room(so.selected, units) <= bound
    ensures Packed(bound, units, so).omitted == so.omitted ==>
            Packed(bound, units, so).selected == so.selected + Flatten(units)
    decreases |units|
  {
    if units == [] {
      assert so.selected + Flatten(units) == so.selected;
    } else {
      RoomOfFirst(bound, units, so.selected);
      if Fits(bound, so.selected, units[0]) {
        PackedWholeIff(bound, units[1..], so.(selected := so.selected + units[0]));
        assert so.selected + Flatten(units) == so.selected + units[0] + Flatten(units[1..]);
      } else {
        PackedOmitsMore(bound, units[1..], so.(omitted := so.omitted + [units[0]]));
      }
    }
  }

  /** Nothing is omitted if and only if the whole text fits, with one character to
      spare as soon as there is more than one unit. */
  lemma NothingOmittedIff(bound: nat, e: EvidenceSet)
    ensures Pack(bound, e).omitted == [] <==> |Render(Flatten(Units(e)))| + (if |Units(e)| <= 1 then 0 else 1) <= bound
    ensures Pack(bound, e).omitted == [] ==>
              Pack(bound, e).selected == Flatten(Units(e)) && Compiled(bound, e).disposition == e.Disposition()
  {
    UnitsNonEmpty(e.items, e, {});
    assert [] + Flatten(Units(e)) == Flatten(Units(e));
    PackedWholeIff(bound, Units(e), Packing([], []));
  }

  lemma StillTooLong(bound: nat, a: seq<EvidenceItem>, b: seq<EvidenceItem>, unit: seq<EvidenceItem>)
    requires a <= b && unit != [] && !Fits(bound, a, unit)
    ensures |Render(b + unit)| + 1 > bound
  {
    assert b == a + b[|a|..];
    RenderPrefix(a, b[|a|..]);
    RenderAppend(a, unit);
    RenderAppend(b, unit);
    if a == [] { assert Render(a) == "" && a + unit == unit; }
  }

  lemma {:induction false} PackedIsFull(bound: nat, units: seq<seq<EvidenceItem>>, so: Packing, unit: seq<EvidenceItem>)
    requires AllNonEmpty(units) && AllNonEmpty(so.omitted)
    requires unit in so.omitted ==> |Render(so.selected + unit)| + 1 > bound
    requires unit in Packed(bound, units, so).omitted
    ensures |Render(Packed(bound, units, so).selected + unit)| + 1 > bound
    decreases |units|
  {
    if units != [] {
      if Fits(bound, so.selected, units[0]) {
        if unit in so.omitted { LongerStillTooLong(bound, so.selected, units[0], unit); }
        PackedIsFull(bound, units[1..], so.(selected := so.selected + units[0]), unit);
      } else {
        if unit == units[0] { StillTooLong(bound, so.selected, so.selected, unit); }
        PackedIsFull(bound, units[1..], so.(omitted := so.omitted + [units[0]]), unit);
      }
    }
  }

  lemma LongerStillTooLong(bound: nat, a: seq<EvidenceItem>, more: seq<EvidenceItem>, unit: seq<EvidenceItem>)
    requires unit != [] && more != [] && |Render(a + unit)| + 1 > bound
    ensures |Render(a + more + unit)| + 1 > bound
  {
    RenderAppend(a, unit);
    RenderAppend(a, more);
    RenderAppend(a + more, unit);
  }

  /** Packing stops at nothing that still fits: no omitted unit could be added to the
      finished text with a character to spare. */
  lemma NothingThatFitsIsOmitted(bound: nat, e: EvidenceSet, unit: seq<EvidenceItem>)
    requires unit in Pack(bound, e).omitted
    ensures |Render(Pack(bound, e).selected + unit)| + 1 > bound
  {
    UnitsNonEmpty(e.items, e, {});
    PackedIsFull(bound, Units(e), Packing([], []), unit);
  }

  /** Two items whose text has exactly `bound` characters: the second is omitted. */
  lemma ExactFitIsOmitted(a: EvidenceItem, b: EvidenceItem, request: Request, lineage: Ref)
    requires !Grouped(a) && !Grouped(b)
    ensures var e, bound := EvidenceSet(request, [a, b], Complete, lineage, []), |Render([a, b])|;
            && Pack(bound, e).selected == [a]
            && Compiled(bound, e).omissionLedger == [Omission(ContextBound, b.evidenceRef)]
  {
    var e, bound := EvidenceSet(request, [a, b], Complete, lineage, []), |Render([a, b])|;
    assert [a, b][1..] == [b] && [b][1..] == [];
    assert UnitsFrom([b], e, {}) == [[b]];
    assert UnitsFrom([a, b], e, {}) == [[a], [b]];
    TwoUnits(bound, a, b);
  }

  lemma TwoUnits(bound: nat, a: EvidenceItem, b: EvidenceItem)
    requires bound == |Render([a, b])|
    ensures Packed(bound, [[a], [b]], Packing([], [])) == Packing([a], [[b]])
    ensures Ledger([[b]]) == [LedgerEntry([b])]
  {
    assert [a, b][1..] == [b];
    assert [] + [a] == [a] && [a] + [b] == [a, b] && [] + [[b]] == [[b]];
    assert Fits(bound, [], [a]) && !Fits(bound, [a], [b]);
    assert [[a], [b]][1..] == [[b]] && [[b]][1..] == [] && [[b]][..0] == [];
    assert Packed(bound, [[b]], Packing([a], [])) == Packed(bound, [], Packing([a], [[b]])) == Packing([a], [[b]]);
  }

  /** The compiled artifact: within the bound, references and citations of exactly
      the rendered items, one ledger entry per omitted unit, and DEGRADED exactly
      when something was omitted. */
  lemma CompiledContract(bound: nat, e: EvidenceSet)
    ensures var r, p := Compiled(bound, e), Pack(bound, e);
            && |r.text| <= bound
            && r.text == Render(p.selected)
            && |r.evidenceRefs| == |r.citationRefs| == |p.selected|
            && (forall i :: 0 <= i < |p.selected| ==>
                  r.evidenceRefs[i] == p.selected[i].evidenceRef && r.citationRefs[i] == p.selected[i].anchor)
            && (forall x :: x in p.selected ==> x in e.items)
            && |r.omissionLedger| == |p.omitted|
            && (r.disposition == Degraded <==> r.omissionLedger != [])
            && (r.disposition == Empty <==> e.items == [])
            && (r.disposition == Degraded || r.disposition == e.Disposition())
            && r.bound == bound && r.coverage == e.coverage && r.authorizationLineage == e.authorizationLineage
  {
    PackFacts(bound, e);
    var p := Pack(bound, e);
    LedgerLength(p.omitted);
    SelectedAreItems(bound, e);
    if e.items == [] { assert Units(e) == []; }
  }

  lemma SelectedAreItems(bound: nat, e: EvidenceSet)
    ensures forall x :: x in Pack(bound, e).selected ==> x in e.items
  {
    PackFacts(bound, e);
    var p := Pack(bound, e);
    UnitsWithin(e.items, e, {});
    forall x | x in p.selected ensures x in e.items {
      assert x in multiset(p.selected) + multiset(Flatten(p.omitted));
      assert x in multiset(Flatten(Units(e)));
      assert x in Flatten(Units(e));
    }
  }

  lemma {:induction false} UnitsWithin(rest: seq<EvidenceItem>, e: EvidenceSet, seen: set<string>)
    requires forall x :: x in rest ==> x in e.items
    ensures forall x :: x in Flatten(UnitsFrom(rest, e, seen)) ==> x in e.items
    decreases |rest|
  {
    if rest != [] {
      assert rest[0] in rest;
      var units := UnitsFrom(rest, e, seen);
      if !Grouped(rest[0]) {
        UnitsWithin(rest[1..], e, seen);
        assert units[1..] == UnitsFrom(rest[1..], e, seen);
      } else if rest[0].conflictGroup.value in seen {
        UnitsWithin(rest[1..], e, seen);
      } else {
        UnitsWithin(rest[1..], e, seen + {rest[0].conflictGroup.value});
        InGroupMembers(e.items, rest[0].conflictGroup.value);
        assert units[1..] == UnitsFrom(rest[1..], e, seen + {rest[0].conflictGroup.value});
      }
    }
  }
}
