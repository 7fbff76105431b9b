/** Lexical retrieval (`pmiri/retrieval.py`) over what `list_sources` returns.
    Splitting into lines, tokenizing, stripping and reading the frontmatter are
    parameters, as are the hashes behind anchors and references. */
module Retrieval {
  import opened Ordering
  import opened Fingerprints
  import opened Evidence
  import opened Store

  datatype Reader = Reader(lines: string -> seq<string>, tokens: string -> seq<string>, strip: string -> string,
                           conflictGroup: string -> Option<string>,
                           anchor: (string, nat, string) -> string,
                           item: (string, string, string, string) -> string,
                           ref: string -> string)

  datatype SearchError = QueryHasNoTokens | RequestInvalid | StoreError(error: Store.Error)

  datatype Span = Span(line: nat, text: string, score: nat)

  function TokenSet(tokens: seq<string>): set<string> { set t | t in tokens }

  function Score(rd: Reader, query: set<string>, line: string): nat { |query * TokenSet(rd.tokens(line))| }

  /** The matching lines of a text from line number `from` on. */
  function SpansFrom(rd: Reader, query: set<string>, lines: seq<string>, from: nat): seq<Span> {
    if lines == [] then []
    else
      var score := Score(rd, query, lines[0]);
      (if score > 0 then [Span(from, rd.strip(lines[0]), score)] else []) + SpansFrom(rd, query, lines[1..], from + 1)
  }

  function Spans(rd: Reader, query: set<string>, content: string): seq<Span> {
    SpansFrom(rd, query, rd.lines(content), 1)
  }

  /** `matching_spans`. */
  method MatchingSpans(rd: Reader, content: string, queryTokens: seq<string>) returns (spans: seq<Span>)
    ensures spans == Spans(rd, TokenSet(queryTokens), content)
  {
    var lines, query := rd.lines(content), TokenSet(queryTokens);
    spans := [];
    assert lines[0..] == lines;
    for n := 0 to |lines|
      invariant spans + SpansFrom(rd, query, lines[n..], n + 1) == Spans(rd, query, content)
    {
      var score := |query * TokenSet(rd.tokens(lines[n]))|;
      SpansCons(rd, query, lines, n);
      ghost var rest := SpansFrom(rd, query, lines[n + 1..], n + 2);
      if score > 0 {
        var span := Span(n + 1, rd.strip(lines[n]), score);
        assert spans + ([span] + rest) == spans + [span] + rest;
        spans := spans + [span];
      } else {
        assert [] + rest == rest;
      }
    }
    assert lines[|lines|..] == [];
  }

  lemma SpansCons(rd: Reader, query: set<string>, lines: seq<string>, n: nat)
    requires n < |lines|
    ensures var score := Score(rd, query, lines[n]);
            SpansFrom(rd, query, lines[n..], n + 1) ==
            (if score > 0 then [Span(n + 1, rd.strip(lines[n]), score)] else [])
              + SpansFrom(rd, query, lines[n + 1..], n + 2)
  {
    assert lines[n..][1..] == lines[n + 1..] && lines[n..][0] == lines[n];
  }

  function ItemOf(rd: Reader, r: SourceRecord, s: Span): EvidenceItem {
    var anchor := rd.anchor(r.entry.versionId, s.line, s.text);
    var fingerprint := rd.item(r.entry.sourceId, r.entry.versionId, anchor, s.text);
    EvidenceItem("ev_" + rd.ref(fingerprint), r.entry.sourceId, r.entry.versionId, r.entry.projectId,
                 "anchor_" + anchor, s.text,
                 fingerprint, s.score, rd.conflictGroup(r.content))
  }

  function ItemsOf(rd: Reader, r: SourceRecord, spans: seq<Span>): seq<EvidenceItem> {
    if spans == [] then [] else [ItemOf(rd, r, spans[0])] + ItemsOf(rd, r, spans[1..])
  }

  function AllItems(rd: Reader, query: set<string>, sources: seq<SourceRecord>): seq<EvidenceItem> {
    if sources == [] then []
    else ItemsOf(rd, sources[0], Spans(rd, query, sources[0].content)) + AllItems(rd, query, sources[1..])
  }

  /** Highest score first, then source, version and anchor. */
  function ItemKey(i: EvidenceItem): Key { Key(0 - i.score, [i.sourceId, i.versionId, i.anchor]) }

  function Take(items: seq<EvidenceItem>, n: int): seq<EvidenceItem> {
    if 0 <= n <= |items| then items[..n] else items
  }

  function GroupNames(items: seq<EvidenceItem>): seq<string> {
    if items == [] then []
    else (if Grouped(items[0]) then [items[0].conflictGroup.value] else []) + GroupNames(items[1..])
  }

  function EvidenceOf(rd: Reader, request: Request, sources: seq<SourceRecord>): EvidenceSet {
    var all := AllItems(rd, TokenSet(rd.tokens(request.query)), sources);
    var items := Take(SortBy(ItemKey, all), request.maxResults);
    EvidenceSet(request, items, if sources != [] then Complete else Unknown, ReadLineage(request),
                SortedSet(GroupNames(items)))
  }

  /** `Retriever.search` over a local store. */
  function Search(h: Hash, rd: Reader, store: Local, request: Request): Result<EvidenceSet, SearchError> {
    if !WellFormed(request) then Err(RequestInvalid)
    else if rd.tokens(request.query) == [] then Err(QueryHasNoTokens)
    else
      match LocalList(h, store, Some(request.project), false)
      case Err(e) => Err(StoreError(e))
      case Ok(sources) => Ok(EvidenceOf(rd, request, sources))
  }

  /** The inner loop of `search`: one item per matching span. */
  method ItemsForSpans(rd: Reader, r: SourceRecord, spans: seq<Span>) returns (items: seq<EvidenceItem>)
    ensures items == ItemsOf(rd, r, spans)
  {
    ghost var all := ItemsOf(rd, r, spans);
    ItemsAt(rd, r, spans);
    items := [];
    for m := 0 to |spans|
      invariant items == all[..m]
    {
      items := items + [ItemOf(rd, r, spans[m])];
    }
  }

  /** The outer loop of `search`. */
  method ScoreSources(rd: Reader, sources: seq<SourceRecord>, queryTokens: seq<string>)
    returns (scored: seq<EvidenceItem>)
    ensures scored == AllItems(rd, TokenSet(queryTokens), sources)
  {
    ghost var query := TokenSet(queryTokens);
    scored := [];
    assert sources[0..] == sources;
    for n := 0 to |sources|
      invariant scored + AllItems(rd, query, sources[n..]) == AllItems(rd, query, sources)
    {
      var spans := MatchingSpans(rd, sources[n].content, queryTokens);
      var items := ItemsForSpans(rd, sources[n], spans);
      AllItemsCons(rd, query, sources, n);
      assert scored + (items + AllItems(rd, query, sources[n + 1..])) == scored + items
        + AllItems(rd, query, sources[n + 1..]);
      scored := scored + items;
    }
    assert sources[|sources|..] == [];
  }

  lemma AllItemsCons(rd: Reader, query: set<string>, sources: seq<SourceRecord>, n: nat)
    requires n < |sources|
    ensures AllItems(rd, query, sources[n..]) ==
            ItemsOf(rd, sources[n], Spans(rd, query, sources[n].content)) + AllItems(rd, query, sources[n + 1..])
  {
    assert sources[n..][1..] == sources[n + 1..] && sources[n..][0] == sources[n];
  }

  method SearchStore(h: Hash, rd: Reader, store: LocalStore, request: Request)
    returns (r: Result<EvidenceSet, SearchError>)
    requires store.Valid() && store.h == h
    ensures r == Search(h, rd, Local(store.index, store.blobs), request)
  {
    if !WellFormed(request) { return Err(RequestInvalid); }
    var queryTokens := rd.tokens(request.query);
    if queryTokens == [] { return Err(QueryHasNoTokens); }
    var listed := store.ListSources(Some(request.project), false);
    if listed.Err? { return Err(StoreError(listed.error)); }
    var sources := listed.value;
    var scored := ScoreSources(rd, sources, queryTokens);
    var sorted := SortBy(ItemKey, scored);
    var items := Take(sorted, request.maxResults);
    r := Ok(EvidenceSet(request, items, if sources != [] then Complete else Unknown, ReadLineage(request),
                        SortedSet(GroupNames(items))));
  }

  // ----- the hits have distinct keys

  ghost predicate InjectiveAnchors(rd: Reader) {
    forall v, n, t, v', n', t' :: rd.anchor(v, n, t) == rd.anchor(v', n', t') ==> v == v' && n == n' && t == t'
  }

  /** Listed sources have pairwise distinct source ids. */
  ghost predicate DistinctSources(sources: seq<SourceRecord>) {
    forall i, j :: 0 <= i < j < |sources| ==> sources[i].entry.sourceId != sources[j].entry.sourceId
  }

  ghost predicate Hit(rd: Reader, query: set<string>, r: SourceRecord, s: Span) {
    && 1 <= s.line <= |rd.lines(r.content)|
    && s.score == Score(rd, query, rd.lines(r.content)[s.line - 1]) > 0
    && s.text == rd.strip(rd.lines(r.content)[s.line - 1])
  }

  lemma {:induction false} SpansAreHits(rd: Reader, query: set<string>, lines: seq<string>, from: nat, s: Span)
    ensures s in SpansFrom(rd, query, lines, from) <==>
            && from <= s.line < from + |lines|
            && s.score == Score(rd, query, lines[s.line - from]) > 0
            && s.text == rd.strip(lines[s.line - from])
  {
    if lines != [] {
      var rest, score := lines[1..], Score(rd, query, lines[0]);
      SpansAreHits(rd, query, rest, from + 1, s);
      var first := Span(from, rd.strip(lines[0]), score);
      assert s in SpansFrom(rd, query, lines, from) <==>
             (score > 0 && s == first) || s in SpansFrom(rd, query, rest, from + 1);
      assert from < s.line < from + |lines| ==> rest[s.line - from - 1] == lines[s.line - from];
    }
  }

  lemma {:induction false} SpansIncrease(rd: Reader, query: set<string>, lines: seq<string>, from: nat)
    ensures forall i, j :: 0 <= i < j < |SpansFrom(rd, query, lines, from)| ==>
              SpansFrom(rd, query, lines, from)[i].line < SpansFrom(rd, query, lines, from)[j].line
    ensures forall i :: 0 <= i < |SpansFrom(rd, query, lines, from)| ==>
            SpansFrom(rd, query, lines, from)[i].line >= from
  {
    if lines != [] { SpansIncrease(rd, query, lines[1..], from + 1); }
  }

  lemma {:induction false} ItemsAt(rd: Reader, r: SourceRecord, spans: seq<Span>)
    ensures |ItemsOf(rd, r, spans)| == |spans|
    ensures forall i :: 0 <= i < |spans| ==> ItemsOf(rd, r, spans)[i] == ItemOf(rd, r, spans[i])
  {
    if spans != [] { ItemsAt(rd, r, spans[1..]); }
  }

  ghost predicate FromSource(rd: Reader, query: set<string>, r: SourceRecord, i: EvidenceItem) {
    exists s :: Hit(rd, query, r, s) && i == ItemOf(rd, r, s)
  }

  lemma HitsAreSpans(rd: Reader, query: set<string>, r: SourceRecord, s: Span)
    ensures s in Spans(rd, query, r.content) <==> Hit(rd, query, r, s)
  {
    SpansAreHits(rd, query, rd.lines(r.content), 1, s);
  }

  lemma SourceItems(rd: Reader, query: set<string>, r: SourceRecord, i: EvidenceItem)
    ensures i in ItemsOf(rd, r, Spans(rd, query, r.content)) <==> FromSource(rd, query, r, i)
  {
    var spans := Spans(rd, query, r.content);
    var items := ItemsOf(rd, r, spans);
    ItemsAt(rd, r, spans);
    if i in items {
      var k :| 0 <= k < |items| && i == items[k];
      HitsAreSpans(rd, query, r, spans[k]);
    }
    if FromSource(rd, query, r, i) {
      var s :| Hit(rd, query, r, s) && i == ItemOf(rd, r, s);
      HitsAreSpans(rd, query, r, s);
      var k :| 0 <= k < |spans| && spans[k] == s;
      assert items[k] == i;
    }
  }

  /** The items are the matching lines of the sources, each with its own item. */
  lemma {:induction false} ItemsAreTheHits(rd: Reader, query: set<string>, sources: seq<SourceRecord>, i: EvidenceItem)
    ensures i in AllItems(rd, query, sources) <==> exists r :: r in sources && FromSource(rd, query, r, i)
  {
    if sources != [] {
      SourceItems(rd, query, sources[0], i);
      ItemsAreTheHits(rd, query, sources[1..], i);
      assert sources == [sources[0]] + sources[1..];
      if exists r :: r in sources && FromSource(rd, query, r, i) {
        var r :| r in sources && FromSource(rd, query, r, i);
        assert r == sources[0] || r in sources[1..];
      }
    }
  }

  lemma AnchorsDiffer(rd: Reader, r: SourceRecord, s: Span, t: Span)
    requires InjectiveAnchors(rd) && s.line != t.line
    ensures ItemKey(ItemOf(rd, r, s)) != ItemKey(ItemOf(rd, r, t))
  {
    var a, b := rd.anchor(r.entry.versionId, s.line, s.text), rd.anchor(r.entry.versionId, t.line, t.text);
    assert a != b;
    assert ("anchor_" + a)[7..] == a && ("anchor_" + b)[7..] == b;
    assert ItemKey(ItemOf(rd, r, s)).parts[2] == "anchor_" + a;
    assert ItemKey(ItemOf(rd, r, t)).parts[2] == "anchor_" + b;
  }

  lemma {:induction false} HitsHaveDistinctKeys(rd: Reader, query: set<string>, sources: seq<SourceRecord>)
    requires InjectiveAnchors(rd) && DistinctSources(sources)
    ensures DistinctKeys(ItemKey, AllItems(rd, query, sources))
  {
    if sources != [] {
      var r, spans := sources[0], Spans(rd, query, sources[0].content);
      var head, tail := ItemsOf(rd, r, spans), AllItems(rd, query, sources[1..]);
      HitsHaveDistinctKeys(rd, query, sources[1..]);
      ItemsAt(rd, r, spans);
      SpansIncrease(rd, query, rd.lines(r.content), 1);
      forall i, j | 0 <= i < j < |head| ensures ItemKey(head[i]) != ItemKey(head[j]) {
        AnchorsDiffer(rd, r, spans[i], spans[j]);
      }
      forall i, j | 0 <= i < |head| && 0 <= j < |tail| ensures ItemKey(head[i]) != ItemKey(tail[j]) {
        ItemsAreTheHits(rd, query, sources[1..], tail[j]);
        assert tail[j] in tail;
        var q :| q in sources[1..] && FromSource(rd, query, q, tail[j]);
        var k :| 0 <= k < |sources[1..]| && sources[1..][k] == q;
        assert sources[k + 1] == q;
        assert ItemKey(head[i]).parts[0] == r.entry.sourceId && ItemKey(tail[j]).parts[0] == q.entry.sourceId;
      }
    }
  }

  // ----- search is the unique top of the ranking

  lemma {:induction false} GroupsListed(items: seq<EvidenceItem>)
    ensures forall i :: i in items && Grouped(i) ==> i.conflictGroup.value in GroupNames(items)
  {
    if items != [] {
      GroupsListed(items[1..]);
      assert items == [items[0]] + items[1..];
    }
  }

  /** Two items of a result in rank order: the higher score first, equal scores by
      source, version and anchor. */
  predicate RankedBefore(a: EvidenceItem, b: EvidenceItem) {
    && a.score >= b.score
    && (a.score == b.score ==> TripleLess(a.sourceId, a.versionId, a.anchor, b.sourceId, b.versionId, b.anchor))
  }

  lemma KeyIsRank(a: EvidenceItem, b: EvidenceItem)
    ensures KeyLess(ItemKey(a), ItemKey(b)) <==> RankedBefore(a, b)
  {
    KeyLessMeans(ItemKey(a), ItemKey(b));
  }

  /** The ranking: highest score first, ties by source, version and anchor; the first
      `maxResults` of all hits and nothing else, so no hit left out scores higher than
      a hit returned; the conflict groups listed are those of the returned items. */
  lemma SearchIsTopK(rd: Reader, request: Request, sources: seq<SourceRecord>)
    requires InjectiveAnchors(rd) && DistinctSources(sources) && WellFormed(request)
    ensures var all, e := AllItems(rd, TokenSet(rd.tokens(request.query)), sources), EvidenceOf(rd, request, sources);
            && (forall i, j :: 0 <= i < j < |e.items| ==> RankedBefore(e.items[i], e.items[j]))
            && |e.items| == (if |all| < request.maxResults then |all| else request.maxResults)
            && (forall i :: i in e.items ==> i in all)
            && (forall i, j :: i in e.items && j in all && j !in e.items ==> RankedBefore(i, j))
            && (forall g :: g in e.conflictGroups <==>
                  g != "" && exists i :: i in e.items && i.conflictGroup == Some(g))
            && (e.coverage == Complete <==> sources != []) && e.request == request
  {
    var all, items := AllItems(rd, TokenSet(rd.tokens(request.query)), sources), EvidenceOf(rd, request, sources).items;
    HitsHaveDistinctKeys(rd, TokenSet(rd.tokens(request.query)), sources);
    RankedTop(all, items, request.maxResults);
    GroupNamesExact(items);
    SortedSetSpec(GroupNames(items));
  }

  lemma RankedTop(all: seq<EvidenceItem>, items: seq<EvidenceItem>, n: int)
    requires DistinctKeys(ItemKey, all) && n >= 1 && items == Take(SortBy(ItemKey, all), n)
    ensures forall i, j :: 0 <= i < j < |items| ==> RankedBefore(items[i], items[j])
    ensures |items| == if |all| < n then |all| else n
    ensures forall i :: i in items ==> i in all
    ensures forall i, j :: i in items && j in all && j !in items ==> RankedBefore(i, j)
  {
    TopOfSort(all, items, n);
    forall i, j | 0 <= i < j < |items| ensures RankedBefore(items[i], items[j]) { KeyIsRank(items[i], items[j]); }
    forall i, j | i in items && j in all && j !in items ensures RankedBefore(i, j) { KeyIsRank(i, j); }
  }

  lemma {:induction false} GroupNamesExact(items: seq<EvidenceItem>)
    ensures forall g :: g in GroupNames(items) <==> g != "" && exists i :: i in items && i.conflictGroup == Some(g)
  {
    if items != [] {
      GroupNamesExact(items[1..]);
      assert items == [items[0]] + items[1..];
      forall g ensures g in GroupNames(items) <==> g != "" && exists i :: i in items && i.conflictGroup == Some(g) {
        if Grouped(items[0]) && items[0].conflictGroup.value == g { assert items[0] in items; }
        if g in GroupNames(items[1..]) {
          var i :| i in items[1..] && i.conflictGroup == Some(g);
          assert i in items;
        }
      }
    }
  }

  /** The items are exactly those of the lines with at least one query token. */
  lemma ItemsAreTheLines(rd: Reader, query: set<string>, sources: seq<SourceRecord>, i: EvidenceItem)
    ensures i in AllItems(rd, query, sources) <==> exists r, n: nat :: r in sources && OfLine(rd, query, r, n, i)
  {
    ItemsAreTheHits(rd, query, sources, i);
    if i in AllItems(rd, query, sources) {
      var r :| r in sources && FromSource(rd, query, r, i);
      var s :| Hit(rd, query, r, s) && i == ItemOf(rd, r, s);
      HitIsLine(rd, query, r, s.line, i);
    }
    if r, n: nat :| r in sources && OfLine(rd, query, r, n, i) { HitIsLine(rd, query, r, n, i); }
  }

  lemma HitIsLine(rd: Reader, query: set<string>, r: SourceRecord, n: nat, i: EvidenceItem)
    ensures OfLine(rd, query, r, n, i) ==> FromSource(rd, query, r, i)
    ensures (exists s :: Hit(rd, query, r, s) && s.line == n && i == ItemOf(rd, r, s)) ==> OfLine(rd, query, r, n, i)
  {
    if 1 <= n <= |rd.lines(r.content)| {
      var line := rd.lines(r.content)[n - 1];
      assert query * TokenSet(rd.tokens(line)) == set t | t in query && t in rd.tokens(line);
      var s := Span(n, rd.strip(line), i.score);
      if OfLine(rd, query, r, n, i) { assert Hit(rd, query, r, s) && i == ItemOf(rd, r, s); }
    }
  }

  /** Item `i` stands for line `n` of record `r`: its score is the number of query
      tokens on the line, at least one. */
  ghost predicate OfLine(rd: Reader, query: set<string>, r: SourceRecord, n: nat, i: EvidenceItem) {
    && 1 <= n <= |rd.lines(r.content)|
    && var line := rd.lines(r.content)[n - 1];
    && i.score == |set t | t in query && t in rd.tokens(line)| && i.score > 0
    && i.text == rd.strip(line) && i.conflictGroup == rd.conflictGroup(r.content)
    && i.sourceId == r.entry.sourceId && i.versionId == r.entry.versionId && i.projectId == r.entry.projectId
    && i.anchor == "anchor_" + rd.anchor(r.entry.versionId, n, i.text)
    && i.fingerprint == rd.item(r.entry.sourceId, r.entry.versionId, rd.anchor(r.entry.versionId, n, i.text), i.text)
    && i.evidenceRef == "ev_" + rd.ref(i.fingerprint)
  }

  /** Two lines, one of them matching both words: with one result asked for, it is
      the one returned. */
  lemma BetterLineWins(rd: Reader, request: Request, r: SourceRecord)
    requires InjectiveAnchors(rd) && WellFormed(request) && request.maxResults == 1
    requires rd.tokens(request.query) == ["alpha", "beta"] && rd.lines(r.content) == ["alpha", "alpha beta"]
    requires rd.tokens("alpha") == ["alpha"] && rd.tokens("alpha beta") == ["alpha", "beta"]
    ensures var items := EvidenceOf(rd, request, [r]).items;
            |items| == 1 && items[0].score == 2 && items[0].text == rd.strip("alpha beta")
  {
    var query, items := TokenSet(rd.tokens(request.query)), EvidenceOf(rd, request, [r]).items;
    SearchIsTopK(rd, request, [r]);
    TwoLineScores(rd, query);
    BestOfTwo(rd, query, r, AllItems(rd, query, [r]), items);
  }

  lemma BestOfTwo(rd: Reader, query: set<string>, r: SourceRecord, all: seq<EvidenceItem>, items: seq<EvidenceItem>)
    requires rd.lines(r.content) == ["alpha", "alpha beta"] && all == AllItems(rd, query, [r])
    requires Score(rd, query, "alpha") == 1 && Score(rd, query, "alpha beta") == 2
    requires |items| == if |all| < 1 then |all| else 1
    requires forall i :: i in items ==> i in all
    requires forall i, j :: i in items && j in all && j !in items ==> RankedBefore(i, j)
    ensures |items| == 1 && items[0].score == 2 && items[0].text == rd.strip("alpha beta")
  {
    var s := Span(2, rd.strip("alpha beta"), 2);
    var best := ItemOf(rd, r, s);
    assert Hit(rd, query, r, s);
    assert FromSource(rd, query, r, best);
    ItemsAreTheHits(rd, query, [r], best);
    assert items[0] in items;
    ItemsAreTheHits(rd, query, [r], items[0]);
    var t :| Hit(rd, query, r, t) && items[0] == ItemOf(rd, r, t);
    assert best in items || RankedBefore(items[0], best);
  }

  lemma TwoLineScores(rd: Reader, query: set<string>)
    requires query == TokenSet(["alpha", "beta"])
    requires rd.tokens("alpha") == ["alpha"] && rd.tokens("alpha beta") == ["alpha", "beta"]
    ensures Score(rd, query, "alpha") == 1 && Score(rd, query, "alpha beta") == 2
  {
    assert query * TokenSet(["alpha"]) == {"alpha"};
    assert "alpha"[0] != "beta"[0];
    assert query * TokenSet(["alpha", "beta"]) == {"alpha", "beta"};
  }

  lemma TopOfSort(all: seq<EvidenceItem>, items: seq<EvidenceItem>, n: int)
    requires DistinctKeys(ItemKey, all) && n >= 1 && items == Take(SortBy(ItemKey, all), n)
    ensures Increasing(ItemKey, items) && |items| == if |all| < n then |all| else n
    ensures forall i :: i in items ==> i in all
    ensures forall i, j :: i in items && j in all && j !in items ==> KeyLess(ItemKey(i), ItemKey(j))
  {
    SortIncreasing(ItemKey, all);
    SortMembers(ItemKey, all);
    PrefixRanksFirst(SortBy(ItemKey, all), items, n);
    forall j ensures j in all <==> j in SortBy(ItemKey, all) {
      assert j in multiset(all) <==> j in multiset(SortBy(ItemKey, all));
    }
  }

  lemma PrefixRanksFirst(sorted: seq<EvidenceItem>, items: seq<EvidenceItem>, n: int)
    requires Increasing(ItemKey, sorted) && n >= 1 && items == Take(sorted, n)
    ensures Increasing(ItemKey, items) && |items| == if |sorted| < n then |sorted| else n
    ensures forall i :: i in items ==> i in sorted
    ensures forall i, j :: i in items && j in sorted && j !in items ==> KeyLess(ItemKey(i), ItemKey(j))
  {
    forall i, j | i in items && j in sorted && j !in items ensures KeyLess(ItemKey(i), ItemKey(j)) {
      var m :| 0 <= m < |items| && items[m] == i;
      var k :| 0 <= k < |sorted| && sorted[k] == j;
      assert sorted[m] == i;
      assert forall l :: 0 <= l < |items| ==> sorted[l] == items[l] && items[l] in items;
    }
  }

  /** The order in which sources are listed does not show in the result. */
  lemma SearchIgnoresListingOrder(rd: Reader, request: Request, a: seq<SourceRecord>, b: seq<SourceRecord>)
    requires InjectiveAnchors(rd) && DistinctSources(a) && DistinctSources(b)
    requires forall r :: r in a <==> r in b
    ensures EvidenceOf(rd, request, a).items == EvidenceOf(rd, request, b).items
  {
    var query := TokenSet(rd.tokens(request.query));
    HitsHaveDistinctKeys(rd, query, a);
    HitsHaveDistinctKeys(rd, query, b);
    forall i ensures i in AllItems(rd, query, a) <==> i in AllItems(rd, query, b) {
      ItemsAreTheHits(rd, query, a, i);
      ItemsAreTheHits(rd, query, b, i);
    }
    SortPermutation(ItemKey, AllItems(rd, query, a), AllItems(rd, query, b));
  }

  lemma {:induction false} LoadedInOrder(h: Hash, blobs: map<string, string>, entries: seq<Entry>)
    requires LoadAll(h, blobs, entries).Ok?
    ensures |LoadAll(h, blobs, entries).value| == |entries|
    ensures forall i :: 0 <= i < |entries| ==> LoadAll(h, blobs, entries).value[i].entry == entries[i]
  {
    if entries != [] { LoadedInOrder(h, blobs, entries[1..]); }
  }

  lemma ChosenEntries(h: Hash, store: Local, project: string, e: Entry)
    requires LocalInv(h, store)
    requires var raw := OfProject(store.index, Some(project)); e in LatestOf(raw, raw)
    ensures var raw := OfProject(store.index, Some(project));
            GoodEntry(h, store.blobs, e) && e.projectId == project && e in raw && IsLatest(e, raw)
  {
    var raw := OfProject(store.index, Some(project));
    SelectMembers(raw, raw, Some(project), e);
    SelectMembers(store.index, store.index, Some(project), e);
  }

  lemma ChosenDistinct(store: Local, project: string, i: nat, j: nat)
    requires Increasing(EntryKey, store.index) && DistinctKeys(VersionKey, store.index)
    requires var raw := OfProject(store.index, Some(project)); i < j < |LatestOf(raw, raw)|
    ensures var raw := OfProject(store.index, Some(project));
            LatestOf(raw, raw)[i].sourceId != LatestOf(raw, raw)[j].sourceId
  {
    var raw := OfProject(store.index, Some(project));
    var a, b := LatestOf(raw, raw)[i], LatestOf(raw, raw)[j];
    assert a in LatestOf(raw, raw) && b in LatestOf(raw, raw);
    SelectMembers(raw, raw, None, a);
    SelectMembers(raw, raw, None, b);
    OfProjectIncreasing(store.index, Some(project));
    OfProjectDistinct(store.index, Some(project));
    LatestIncreasing(raw, raw);
    KeyOrder(EntryKey(a), EntryKey(a));
    assert a != b;
    if a.sourceId == b.sourceId { OnlyLatest(a, b, raw); }
  }

  /** The current listing has one record per source, all of the asked project. */
  lemma CurrentListing(h: Hash, store: Local, project: string)
    requires LocalInv(h, store)
    ensures LocalList(h, store, Some(project), false).Ok?
    ensures var rs := LocalList(h, store, Some(project), false).value;
            DistinctSources(rs) && forall r :: r in rs ==> r.entry.projectId == project
  {
    var raw := OfProject(store.index, Some(project));
    var chosen := LatestOf(raw, raw);
    forall e | e in chosen ensures GoodEntry(h, store.blobs, e) && e.projectId == project {
      ChosenEntries(h, store, project, e);
    }
    LoadGood(h, store.blobs, chosen);
    LoadedInOrder(h, store.blobs, chosen);
    forall i: nat, j: nat | i < j < |chosen| ensures chosen[i].sourceId != chosen[j].sourceId {
      ChosenDistinct(store, project, i, j);
    }
    ListingOf(LoadAll(h, store.blobs, chosen).value, chosen, project);
  }

  lemma ListingOf(rs: seq<SourceRecord>, chosen: seq<Entry>, project: string)
    requires |rs| == |chosen| && forall i :: 0 <= i < |chosen| ==> rs[i].entry == chosen[i]
    requires forall e :: e in chosen ==> e.projectId == project
    requires forall i: nat, j: nat :: i < j < |chosen| ==> chosen[i].sourceId != chosen[j].sourceId
    ensures DistinctSources(rs) && forall r :: r in rs ==> r.entry.projectId == project
  {
    forall r | r in rs ensures r.entry.projectId == project {
      var i :| 0 <= i < |rs| && rs[i] == r;
      assert chosen[i] in chosen;
    }
  }

  /** On every store the program can reach, a search with tokens succeeds, returns
      only items of the requested project, and is the top of its ranking. */
  lemma SearchOnReachableStore(h: Hash, rd: Reader, regs: seq<Registration>, request: Request)
    requires InjectiveAnchors(rd) && WellFormed(request) && rd.tokens(request.query) != []
    ensures Search(h, rd, LocalAfter(h, regs), request).Ok?
    ensures var e := Search(h, rd, LocalAfter(h, regs), request).value;
            && |e.items| <= request.maxResults && (forall i :: i in e.items ==> i.projectId == request.project)
            && forall i, j :: 0 <= i < j < |e.items| ==> RankedBefore(e.items[i], e.items[j])
  {
    StoresMirror(h, regs);
    CurrentListing(h, LocalAfter(h, regs), request.project);
    var sources := LocalList(h, LocalAfter(h, regs), Some(request.project), false).value;
    SearchIsTopK(rd, request, sources);
    var query := TokenSet(rd.tokens(request.query));
    forall i | i in EvidenceOf(rd, request, sources).items ensures i.projectId == request.project {
      assert i in AllItems(rd, query, sources);
      ItemsAreTheHits(rd, query, sources, i);
      var r :| r in sources && FromSource(rd, query, r, i);
    }
  }

  /** Registering the same distinct versions in another order changes no search. */
  lemma SearchIgnoresRegistrationOrder(h: Hash, rd: Reader, a: seq<Registration>, b: seq<Registration>,
                                       request: Request)
    requires Injective(h)
    requires AllMade(h, a) && AllMade(h, b) && DistinctVersions(h, a) && DistinctVersions(h, b)
    requires forall r :: r in a <==> r in b
    ensures Search(h, rd, LocalAfter(h, a), request) == Search(h, rd, LocalAfter(h, b), request)
  {
    ListingOrderFree(h, a, b, Some(request.project), false);
  }
}
