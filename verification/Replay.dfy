/** The request-id replay guards: the bounded in-memory queue of
    `pmiri/request_auth.py` and the SQLite table of `pmiri/control_plane.py`. */
module Replay {
  import opened Ordering
  import opened Fingerprints

  datatype Call = Call(id: string, fingerprint: Digest, expires: int, now: int)

  datatype Entry = Entry(fingerprint: Digest, expiry: int)

  // ----- the in-memory guard

  datatype Guard = Guard(seen: map<string, Entry>, order: seq<string>)

  const EMPTY := Guard(map[], [])

  /** The queue lists the seen ids once each and never exceeds the capacity. */
  ghost predicate ValidGuard(g: Guard, maxEntries: nat) {
    NoDuplicates(g.order) && Elements(g.order) == g.seen.Keys && |g.order| == |g.seen| <= maxEntries
  }

  ghost function Elements(s: seq<string>): set<string> {
    if s == [] then {} else {s[0]} + Elements(s[1..])
  }

  ghost predicate NoDuplicates(s: seq<string>) {
    s == [] || (s[0] !in Elements(s[1..]) && NoDuplicates(s[1..]))
  }

  lemma {:induction false} AppendElement(s: seq<string>, x: string)
    ensures Elements(s + [x]) == Elements(s) + {x}
    ensures NoDuplicates(s) && x !in Elements(s) ==> NoDuplicates(s + [x])
  {
    if s == [] {
      assert s + [x] == [x];
    } else {
      assert (s + [x])[1..] == s[1..] + [x];
      AppendElement(s[1..], x);
    }
  }

  lemma {:induction false} ElementsAre(s: seq<string>, x: string)
    ensures x in Elements(s) <==> x in s
  {
    if s != [] { ElementsAre(s[1..], x); }
  }

  function ExpiryOf(g: Guard, id: string): int { if id in g.seen then g.seen[id].expiry else 0 }

  function PopFront(g: Guard): Guard
    requires g.order != []
  {
    Guard(g.seen - {g.order[0]}, g.order[1..])
  }

  /** Drops expired ids from the front, and only from the front. */
  function Purge(g: Guard, now: int): Guard
    decreases |g.order|
  {
    if g.order != [] && ExpiryOf(g, g.order[0]) <= now then Purge(PopFront(g), now) else g
  }

  predicate Admits(g: Guard, c: Call) { c.id !in Purge(g, c.now).seen }

  function Advance(g: Guard, maxEntries: nat, c: Call): Guard {
    if !Admits(g, c) then Purge(g, c.now) else Push(MakeRoom(Purge(g, c.now), maxEntries), c)
  }

  /** At capacity the oldest id makes way; the queue is not empty then. */
  function MakeRoom(g: Guard, maxEntries: nat): Guard {
    if |g.seen| >= maxEntries && g.order != [] then PopFront(g) else g
  }

  function Push(g: Guard, c: Call): Guard {
    Guard(g.seen[c.id := Entry(c.fingerprint, c.expires)], g.order + [c.id])
  }

  lemma MakeRoomValid(g: Guard, maxEntries: nat)
    requires maxEntries >= 1 && ValidGuard(g, maxEntries)
    ensures ValidGuard(MakeRoom(g, maxEntries), maxEntries - 1)
    ensures MakeRoom(g, maxEntries).seen.Keys <= g.seen.Keys
  {
    if |g.seen| >= maxEntries { PopFrontValid(g, maxEntries); }
  }

  lemma PushValid(g: Guard, maxEntries: nat, c: Call)
    requires maxEntries >= 1 && ValidGuard(g, maxEntries - 1) && c.id !in g.seen
    ensures ValidGuard(Push(g, c), maxEntries)
  {
    AppendElement(g.order, c.id);
    assert Push(g, c).seen.Keys == g.seen.Keys + {c.id};
  }

  lemma PopFrontValid(g: Guard, maxEntries: nat)
    requires ValidGuard(g, maxEntries) && g.order != []
    ensures ValidGuard(PopFront(g), maxEntries) && |PopFront(g).order| < |g.order|
  {
    var r := PopFront(g);
    assert r.seen.Keys == g.seen.Keys - {g.order[0]};
    assert |r.seen.Keys| == |g.seen.Keys| - 1;
  }

  lemma {:induction false} PurgeValid(g: Guard, maxEntries: nat, now: int)
    requires ValidGuard(g, maxEntries)
    ensures ValidGuard(Purge(g, now), maxEntries)
    decreases |g.order|
  {
    if g.order != [] && ExpiryOf(g, g.order[0]) <= now {
      PopFrontValid(g, maxEntries);
      PurgeValid(PopFront(g), maxEntries, now);
    }
  }

  /** Every call keeps the queue duplicate-free, equal to the map's keys and bounded. */
  lemma AdvanceValid(g: Guard, maxEntries: nat, c: Call)
    requires maxEntries >= 1 && ValidGuard(g, maxEntries)
    ensures ValidGuard(Advance(g, maxEntries, c), maxEntries)
  {
    PurgeValid(g, maxEntries, c.now);
    if Admits(g, c) {
      MakeRoomValid(Purge(g, c.now), maxEntries);
      PushValid(MakeRoom(Purge(g, c.now), maxEntries), maxEntries, c);
    }
  }

  /** `ReplayGuard`. */
  class ReplayGuard {
    const maxEntries: nat
    var seen: map<string, Entry>
    var order: seq<string>

    ghost predicate Valid()
      reads this
    {
      maxEntries >= 1 && ValidGuard(Guard(seen, order), maxEntries)
    }

    constructor (maxEntries: nat)
      requires maxEntries >= 1
      ensures Valid() && this.maxEntries == maxEntries && Guard(seen, order) == EMPTY
    {
      this.maxEntries := maxEntries;
      seen, order := map[], [];
    }

    method Consume(c: Call) returns (accepted: bool)
      requires Valid()
      modifies this
      ensures Valid()
      ensures accepted == Admits(old(Guard(seen, order)), c)
      ensures Guard(seen, order) == Advance(old(Guard(seen, order)), maxEntries, c)
    {
      ghost var g := Guard(seen, order);
      AdvanceValid(g, maxEntries, c);
      while order != [] && (if order[0] in seen then seen[order[0]].expiry else 0) <= c.now
        invariant Purge(Guard(seen, order), c.now) == Purge(g, c.now)
        invariant ValidGuard(Guard(seen, order), maxEntries)
        decreases |order|
      {
        PopFrontValid(Guard(seen, order), maxEntries);
        var oldest := order[0];
        order := order[1..];
        seen := seen - {oldest};
      }
      if c.id in seen {
        return false;
      }
      if |seen| >= maxEntries {
        var oldest := order[0];
        order := order[1..];
        seen := seen - {oldest};
      }
      seen := seen[c.id := Entry(c.fingerprint, c.expires)];
      order := order + [c.id];
      assert Guard(seen, order) == Advance(g, maxEntries, c);
      return true;
    }
  }

  // ----- what the guard forgets, said of queue and expiries

  /** Every queued id up to and including position `k` has expired. */
  predicate ExpiredThrough(g: Guard, k: nat, now: int) {
    k < |g.order| && forall i :: 0 <= i <= k ==> ExpiryOf(g, g.order[i]) <= now
  }

  lemma {:induction false} PositionOf(s: seq<string>, x: string)
    requires NoDuplicates(s)
    ensures forall i, j :: 0 <= i < |s| && 0 <= j < |s| && s[i] == x && s[j] == x ==> i == j
  {
    if s != [] {
      PositionOf(s[1..], x);
      ElementsAre(s[1..], x);
      forall i, j | 0 <= i < |s| && 0 <= j < |s| && s[i] == x && s[j] == x ensures i == j {
        if i > 0 { assert s[1..][i - 1] == x; }
        if j > 0 { assert s[1..][j - 1] == x; }
      }
    }
  }

  /** A call is admitted if and only if its id is not held, or it and every id queued
      before it have expired. */
  lemma {:induction false} AdmitsExactly(g: Guard, maxEntries: nat, c: Call)
    requires ValidGuard(g, maxEntries)
    ensures Admits(g, c) <==>
            c.id !in g.seen || exists k: nat :: ExpiredThrough(g, k, c.now) && g.order[k] == c.id
    decreases |g.order|
  {
    if g.order == [] {
    } else if ExpiryOf(g, g.order[0]) <= c.now {
      var rest := PopFront(g);
      PopFrontValid(g, maxEntries);
      AdmitsExactly(rest, maxEntries, c);
      AdmitsAfterPop(g, maxEntries, c);
    } else {
      assert forall k: nat :: !ExpiredThrough(g, k, c.now);
    }
  }

  lemma AdmitsAfterPop(g: Guard, maxEntries: nat, c: Call)
    requires ValidGuard(g, maxEntries) && g.order != [] && ExpiryOf(g, g.order[0]) <= c.now
    ensures var rest := PopFront(g);
            (c.id !in rest.seen || exists k: nat :: ExpiredThrough(rest, k, c.now) && rest.order[k] == c.id) <==>
            (c.id !in g.seen || exists k: nat :: ExpiredThrough(g, k, c.now) && g.order[k] == c.id)
  {
    var rest := PopFront(g);
    PositionOf(g.order, g.order[0]);
    assert forall i :: 0 <= i < |rest.order| ==> ExpiryOf(rest, rest.order[i]) == ExpiryOf(g, g.order[i + 1]);
    if k: nat :| ExpiredThrough(rest, k, c.now) && rest.order[k] == c.id {
      assert ExpiredThrough(g, k + 1, c.now) && g.order[k + 1] == c.id;
    }
    if k: nat :| ExpiredThrough(g, k, c.now) && g.order[k] == c.id {
      if k > 0 { assert ExpiredThrough(rest, k - 1, c.now) && rest.order[k - 1] == c.id; }
    }
    if c.id in g.seen && c.id !in rest.seen {
      assert c.id == g.order[0];
      assert ExpiredThrough(g, 0, c.now);
    }
  }

  /** An id whose entry has ended is accepted again, whatever the capacity. */
  lemma ForgottenAfterExpiry(maxEntries: nat, first: Call, again: Call)
    requires maxEntries >= 1 && first.id == again.id && first.expires <= again.now
    ensures Admits(EMPTY, first) && Admits(Advance(EMPTY, maxEntries, first), again)
  {
    var g := Advance(EMPTY, maxEntries, first);
    AdvanceValid(EMPTY, maxEntries, first);
    AdmitsExactly(g, maxEntries, again);
    assert [] + [first.id] == [first.id];
    assert ExpiredThrough(g, 0, again.now);
  }

  /** An ended id queued behind one that is still live is refused all the same: the
      queue is purged from its head only. */
  lemma StuckBehindALiveId(maxEntries: nat, first: Call, second: Call, again: Call)
    requires maxEntries >= 2 && first.id != second.id && again.id == second.id
    requires second.now < first.expires && second.expires <= again.now < first.expires
    ensures var g := Advance(EMPTY, maxEntries, first);
            Admits(g, second) && !Admits(Advance(g, maxEntries, second), again)
  {
    var g := Advance(EMPTY, maxEntries, first);
    assert [] + [first.id] == [first.id];
    assert g == Guard(map[first.id := Entry(first.fingerprint, first.expires)], [first.id]);
    assert Purge(g, second.now) == g;
    var k := Advance(g, maxEntries, second);
    assert [first.id] + [second.id] == [first.id, second.id];
    assert k.order == [first.id, second.id] && ExpiryOf(k, first.id) == first.expires;
    assert Purge(k, again.now) == k;
  }

  lemma {:induction false} PurgedHead(g: Guard, now: int)
    ensures Purge(g, now).order == [] || ExpiryOf(Purge(g, now), Purge(g, now).order[0]) > now
    decreases |g.order|
  {
    if g.order != [] && ExpiryOf(g, g.order[0]) <= now { PurgedHead(PopFront(g), now); }
  }

  /** After every refused call the queue is empty or its head is still to expire; after
      an accepted one the id just pushed is last, with its expiry. */
  lemma HeadIsLive(g: Guard, maxEntries: nat, c: Call)
    requires maxEntries >= 1 && ValidGuard(g, maxEntries)
    ensures var next := Advance(g, maxEntries, c);
            && (!Admits(g, c) ==> next.order != [] && ExpiryOf(next, next.order[0]) > c.now)
            && (Admits(g, c) ==> next.order != [] && Last(next.order) == c.id
                                 && c.id in next.seen && next.seen[c.id] == Entry(c.fingerprint, c.expires))
  {
    PurgedHead(g, c.now);
    PurgeValid(g, maxEntries, c.now);
    if !Admits(g, c) { ElementsAre(Purge(g, c.now).order, c.id); }
  }

  // ----- runs of the in-memory guard

  /** A run: `states[k]` is the guard just before moment `k`, `calls[k]` the call made
      then, None where something else happened, and `answers[k]` whether a call was
      made and accepted.  The run may start in any valid state. */
  datatype Run = Run(states: seq<Guard>, calls: seq<Option<Call>>, answers: seq<bool>)

  ghost predicate IsRun(maxEntries: nat, r: Run) {
    && maxEntries >= 1 && |r.states| == |r.calls| + 1 && |r.answers| == |r.calls|
    && ValidGuard(r.states[0], maxEntries)
    && forall k :: 0 <= k < |r.calls| ==> IsStep(maxEntries, r, k)
  }

  ghost predicate IsStep(maxEntries: nat, r: Run, k: nat)
    requires k < |r.calls| && |r.states| == |r.calls| + 1 && |r.answers| == |r.calls|
  {
    match r.calls[k]
    case None => r.states[k + 1] == r.states[k] && !r.answers[k]
    case Some(c) => r.states[k + 1] == Advance(r.states[k], maxEntries, c) && r.answers[k] == Admits(r.states[k], c)
  }

  /** Calls accepted at positions `from <= k < to`. */
  function AcceptedBetween(answers: seq<bool>, from: nat, to: nat): nat
    requires to <= |answers|
  {
    if to <= from then 0 else AcceptedBetween(answers, from, to - 1) + if answers[to - 1] then 1 else 0
  }

  /** `id` is held, with `depth` ids queued behind it. */
  ghost predicate Held(g: Guard, id: string, expiry: int, depth: nat) {
    && id in g.seen && g.seen[id].expiry == expiry
    && depth < |g.order| && g.order[|g.order| - 1 - depth] == id
  }

  lemma {:induction false} PurgeHolds(g: Guard, maxEntries: nat, now: int, id: string, expiry: int, depth: nat)
    requires ValidGuard(g, maxEntries) && Held(g, id, expiry, depth) && now < expiry
    ensures Held(Purge(g, now), id, expiry, depth)
    decreases |g.order|
  {
    if g.order != [] && ExpiryOf(g, g.order[0]) <= now {
      PopFrontValid(g, maxEntries);
      PurgeHolds(PopFront(g), maxEntries, now, id, expiry, depth);
    }
  }

  lemma MakeRoomHolds(g: Guard, maxEntries: nat, id: string, expiry: int, depth: nat)
    requires maxEntries >= 1 && ValidGuard(g, maxEntries) && Held(g, id, expiry, depth) && depth + 1 < maxEntries
    ensures Held(MakeRoom(g, maxEntries), id, expiry, depth)
  {
    if |g.seen| >= maxEntries {
      assert g.order[1..][|g.order| - 2 - depth] == id;
      ElementsAre(g.order[1..], id);
    }
  }

  lemma PushHolds(g: Guard, c: Call, id: string, expiry: int, depth: nat)
    requires Held(g, id, expiry, depth) && c.id !in g.seen
    ensures Held(Push(g, c), id, expiry, depth + 1)
  {
  }

  lemma AdvanceHolds(g: Guard, maxEntries: nat, c: Call, next: Guard, id: string, expiry: int, depth: nat)
    requires maxEntries >= 1 && ValidGuard(g, maxEntries) && Held(g, id, expiry, depth) && c.now < expiry
    requires next == Advance(g, maxEntries, c)
    ensures c.id == id ==> !Admits(g, c)
    ensures !Admits(g, c) ==> Held(next, id, expiry, depth)
    ensures Admits(g, c) && depth + 1 < maxEntries ==> Held(next, id, expiry, depth + 1)
  {
    PurgeValid(g, maxEntries, c.now);
    PurgeHolds(g, maxEntries, c.now, id, expiry, depth);
    if Admits(g, c) && depth + 1 < maxEntries {
      var p := Purge(g, c.now);
      MakeRoomHolds(p, maxEntries, id, expiry, depth);
      MakeRoomValid(p, maxEntries);
      PushHolds(MakeRoom(p, maxEntries), c, id, expiry, depth);
    }
  }

  lemma PushedIsHeld(g: Guard, maxEntries: nat, c: Call, next: Guard)
    requires maxEntries >= 1 && ValidGuard(g, maxEntries) && Admits(g, c)
    requires next == Advance(g, maxEntries, c)
    ensures Held(next, c.id, c.expires, 0)
  {
    PurgeValid(g, maxEntries, c.now);
    var r := MakeRoom(Purge(g, c.now), maxEntries);
    assert Push(r, c).order[|r.order|] == c.id;
  }

  lemma {:induction false} RunValid(maxEntries: nat, r: Run, n: nat)
    requires IsRun(maxEntries, r) && n < |r.states|
    ensures ValidGuard(r.states[n], maxEntries)
  {
    var k := 0;
    while k < n
      invariant k <= n && ValidGuard(r.states[k], maxEntries)
    {
      assert IsStep(maxEntries, r, k);
      if r.calls[k].Some? { AdvanceValid(r.states[k], maxEntries, r.calls[k].value); }
      k := k + 1;
    }
  }

  /** One moment of a run: a held id is refused, and stays held unless it is pushed
      out by the last admission the capacity allows. */
  lemma HeldStep(maxEntries: nat, r: Run, k: nat, id: string, expiry: int, depth: nat)
    requires IsRun(maxEntries, r) && k < |r.calls| && Held(r.states[k], id, expiry, depth)
    requires r.calls[k].Some? ==> r.calls[k].value.now < expiry
    ensures r.calls[k].Some? && r.calls[k].value.id == id ==> !r.answers[k]
    ensures !r.answers[k] ==> Held(r.states[k + 1], id, expiry, depth)
    ensures r.answers[k] && depth + 1 < maxEntries ==> Held(r.states[k + 1], id, expiry, depth + 1)
  {
    RunValid(maxEntries, r, k);
    assert IsStep(maxEntries, r, k);
    if r.calls[k].Some? {
      AdvanceHolds(r.states[k], maxEntries, r.calls[k].value, r.states[k + 1], id, expiry, depth);
    }
  }

  lemma HeldFirst(maxEntries: nat, r: Run, k: nat)
    requires IsRun(maxEntries, r) && k < |r.calls| && r.answers[k]
    ensures r.calls[k].Some? && Held(r.states[k + 1], r.calls[k].value.id, r.calls[k].value.expires, 0)
  {
    RunValid(maxEntries, r, k);
    assert IsStep(maxEntries, r, k);
    PushedIsHeld(r.states[k], maxEntries, r.calls[k].value, r.states[k + 1]);
  }

  lemma {:induction false} HeldSince(maxEntries: nat, r: Run, i: nat, n: nat)
    requires IsRun(maxEntries, r) && i < n <= |r.calls| && r.answers[i] && r.calls[i].Some? && LiveUntil(r.calls, i, n)
    requires AcceptedBetween(r.answers, i + 1, n) < maxEntries
    ensures Held(r.states[n], r.calls[i].value.id, r.calls[i].value.expires, AcceptedBetween(r.answers, i + 1, n))
  {
    if n == i + 1 {
      HeldFirst(maxEntries, r, i);
    } else {
      assert LiveUntil(r.calls, i, n - 1);
      HeldSince(maxEntries, r, i, n - 1);
      HeldStep(maxEntries, r, n - 1, r.calls[i].value.id, r.calls[i].value.expires,
               AcceptedBetween(r.answers, i + 1, n - 1));
    }
  }

  /** Call `i` of a run was accepted with the id of call `j`, no time seen since, that
      of call `j` included, has outlived it, and fewer than `maxEntries` calls were
      accepted in between. */
  ghost predicate Remembered(maxEntries: nat, r: Run, i: nat, j: nat)
    requires i < j < |r.calls| == |r.answers| && r.calls[j].Some?
  {
    && r.answers[i] && r.calls[i].Some? && r.calls[i].value.id == r.calls[j].value.id
    && LiveUntil(r.calls, i, j + 1) && AcceptedBetween(r.answers, i + 1, j) < maxEntries
  }

  /** In every run, an accepted id is refused again as long as every time seen since,
      the new one included, is strictly before its expiry and fewer than `maxEntries`
      calls were accepted in between. */
  lemma NoReplay(maxEntries: nat, r: Run, i: nat, j: nat)
    requires IsRun(maxEntries, r) && i < j < |r.calls| && r.calls[j].Some? && Remembered(maxEntries, r, i, j)
    ensures !r.answers[j]
  {
    assert LiveUntil(r.calls, i, j);
    HeldSince(maxEntries, r, i, j);
    HeldStep(maxEntries, r, j, r.calls[i].value.id, r.calls[i].value.expires, AcceptedBetween(r.answers, i + 1, j));
  }

  // ----- and, where ids expire in the order they came, exactly then

  /** Accepted calls expire in the order in which they were accepted. */
  ghost predicate ExpireInOrder(r: Run)
    requires |r.calls| == |r.answers|
  {
    forall i, k :: 0 <= i < k < |r.calls| && r.answers[i] && r.answers[k] && r.calls[i].Some? && r.calls[k].Some? ==>
      r.calls[i].value.expires <= r.calls[k].value.expires
  }

  /** Every held id was accepted by a call no time seen since has outlived. */
  ghost predicate HasOrigin(r: Run, n: nat, g: Guard, p: nat, i: nat)
    requires i < n <= |r.calls| == |r.answers| && p < |g.order|
  {
    && r.answers[i] && r.calls[i].Some? && r.calls[i].value.id == g.order[p]
    && ExpiryOf(g, g.order[p]) == r.calls[i].value.expires && LiveUntil(r.calls, i, n)
    && AcceptedBetween(r.answers, i + 1, n) == |g.order| - 1 - p
  }

  ghost predicate SortedByExpiry(g: Guard) {
    forall p, q :: 0 <= p < q < |g.order| ==> ExpiryOf(g, g.order[p]) <= ExpiryOf(g, g.order[q])
  }

  /** What is left of a sorted queue is its unexpired tail. */
  lemma {:induction false} PurgeOfSorted(g: Guard, maxEntries: nat, now: int) returns (m: nat)
    requires ValidGuard(g, maxEntries) && SortedByExpiry(g)
    ensures m <= |g.order| && Purge(g, now).order == g.order[m..] && SortedByExpiry(Purge(g, now))
    ensures forall p: nat :: p < |Purge(g, now).order| ==>
              var id := Purge(g, now).order[p]; ExpiryOf(Purge(g, now), id) == ExpiryOf(g, id) > now
    decreases |g.order|
  {
    if g.order != [] && ExpiryOf(g, g.order[0]) <= now {
      var rest := PopFront(g);
      PopFrontValid(g, maxEntries);
      PositionOf(g.order, g.order[0]);
      assert forall i :: 0 <= i < |rest.order| ==>
          rest.order[i] == g.order[i + 1] && ExpiryOf(rest, rest.order[i]) == ExpiryOf(g, g.order[i + 1]);
      m := PurgeOfSorted(rest, maxEntries, now);
      assert rest.order[m..] == g.order[m + 1..];
      m := m + 1;
    } else {
      m := 0;
      assert g.order[0..] == g.order;
      forall p: nat | p < |g.order| ensures ExpiryOf(g, g.order[p]) > now {
        if p > 0 { assert ExpiryOf(g, g.order[0]) <= ExpiryOf(g, g.order[p]); }
      }
    }
  }

  /** What a call leaves of a sorted queue: an unexpired tail, and its own id behind it
      if it was accepted. */
  lemma AdvanceOfSorted(g: Guard, maxEntries: nat, c: Call, next: Guard) returns (m: nat)
    requires maxEntries >= 1 && ValidGuard(g, maxEntries) && SortedByExpiry(g) && next == Advance(g, maxEntries, c)
    ensures m <= |g.order| && next.order == g.order[m..] + (if Admits(g, c) then [c.id] else [])
    ensures forall p: nat :: m <= p < |g.order| ==> ExpiryOf(next, g.order[p]) == ExpiryOf(g, g.order[p]) > c.now
    ensures Admits(g, c) ==> ExpiryOf(next, c.id) == c.expires
  {
    m := PurgeOfSorted(g, maxEntries, c.now);
    var d := 0;
    if Admits(g, c) {
      PurgeValid(g, maxEntries, c.now);
      d := RoomAndPush(Purge(g, c.now), maxEntries, c);
    }
    TailOfTail(g, Purge(g, c.now), next, m, d, c.now, if Admits(g, c) then [c.id] else []);
    m := m + d;
  }

  lemma TailOfTail(g: Guard, u: Guard, next: Guard, m: nat, d: nat, now: int, end: seq<string>)
    requires m <= |g.order| && u.order == g.order[m..] && d <= |u.order|
    requires forall p: nat :: p < |u.order| ==> ExpiryOf(u, u.order[p]) == ExpiryOf(g, u.order[p]) > now
    requires next.order == u.order[d..] + end || (next.order == u.order && d == 0 && end == [])
    requires forall p: nat :: d <= p < |u.order| ==> ExpiryOf(next, u.order[p]) == ExpiryOf(u, u.order[p])
    ensures m + d <= |g.order| && next.order == g.order[m + d..] + end
    ensures forall p: nat :: m + d <= p < |g.order| ==> ExpiryOf(next, g.order[p]) == ExpiryOf(g, g.order[p]) > now
  {
    assert u.order[d..] == g.order[m + d..];
    forall p: nat | m + d <= p < |g.order|
      ensures ExpiryOf(next, g.order[p]) == ExpiryOf(g, g.order[p]) > now
    {
      assert u.order[p - m] == g.order[p];
    }
  }

  lemma RoomAndPush(u: Guard, maxEntries: nat, c: Call) returns (d: nat)
    requires maxEntries >= 1 && ValidGuard(u, maxEntries) && c.id !in u.seen
    ensures var next := Push(MakeRoom(u, maxEntries), c);
            && d <= |u.order| && next.order == u.order[d..] + [c.id] && ExpiryOf(next, c.id) == c.expires
            && forall p: nat :: d <= p < |u.order| ==> ExpiryOf(next, u.order[p]) == ExpiryOf(u, u.order[p])
  {
    RoomKeeps(u, maxEntries);
    var room := MakeRoom(u, maxEntries);
    d := if room.order == u.order then 0 else 1;
    assert room.order == u.order[d..];
    assert forall p: nat :: d <= p < |u.order| ==> room.order[p - d] == u.order[p] && u.order[p] in room.order;
  }

  lemma RoomKeeps(u: Guard, maxEntries: nat)
    requires maxEntries >= 1 && ValidGuard(u, maxEntries)
    ensures var room := MakeRoom(u, maxEntries);
            && (room.order == u.order || (u.order != [] && room.order == u.order[1..]))
            && ValidGuard(room, maxEntries - 1)
            && forall id :: id in room.order ==> id in room.seen && id in u.seen && room.seen[id] == u.seen[id]
  {
    MakeRoomValid(u, maxEntries);
    var room := MakeRoom(u, maxEntries);
    forall id | id in room.order ensures id in room.seen && id in u.seen && room.seen[id] == u.seen[id] {
      ElementsAre(room.order, id);
    }
  }

  /** What moment `k` of a run leaves of the queue before it: a tail from `m` on, its
      expiries unchanged and ahead of the call's time, and the call's id if accepted. */
  ghost predicate LeavesFrom(r: Run, k: nat, m: nat)
    requires k < |r.calls| == |r.answers| && |r.states| == |r.calls| + 1
  {
    var g, next := r.states[k], r.states[k + 1];
    match r.calls[k]
    case None => next == g && !r.answers[k] && m == 0
    case Some(c) =>
      && m <= |g.order| && next.order == g.order[m..] + (if r.answers[k] then [c.id] else [])
      && (forall p: nat :: m <= p < |g.order| ==> ExpiryOf(next, g.order[p]) == ExpiryOf(g, g.order[p]) > c.now)
      && (r.answers[k] ==> ExpiryOf(next, c.id) == c.expires)
  }

  ghost predicate Leaves(r: Run, k: nat)
    requires k < |r.calls| == |r.answers| && |r.states| == |r.calls| + 1
  {
    exists m: nat :: LeavesFrom(r, k, m)
  }

  lemma StepLeaves(maxEntries: nat, r: Run, k: nat)
    requires IsRun(maxEntries, r) && k < |r.calls| && SortedByExpiry(r.states[k])
    ensures Leaves(r, k)
  {
    assert IsStep(maxEntries, r, k);
    if r.calls[k].None? {
      assert LeavesFrom(r, k, 0);
    } else {
      RunValid(maxEntries, r, k);
      var m := AdvanceOfSorted(r.states[k], maxEntries, r.calls[k].value, r.states[k + 1]);
      assert LeavesFrom(r, k, m);
    }
  }

  /** Where a held id comes from. */
  lemma {:induction false} Origin(r: Run, n: nat, p: nat) returns (i: nat)
    requires |r.states| == |r.calls| + 1 && |r.answers| == |r.calls| && r.states[0] == EMPTY && n <= |r.calls|
    requires (forall k: nat :: k < n ==> Leaves(r, k)) && p < |r.states[n].order|
    ensures i < n && HasOrigin(r, n, r.states[n], p, i)
    decreases n
  {
    assert n > 0;
    assert Leaves(r, n - 1);
    var g, next := r.states[n - 1], r.states[n];
    var m: nat :| LeavesFrom(r, n - 1, m);
    if r.calls[n - 1].None? {
      i := Origin(r, n - 1, p);
    } else if m + p < |g.order| {
      i := Origin(r, n - 1, m + p);
      CarryOrigin(r, n, g, next, m, p, i);
    } else {
      i := n - 1;
      NewOrigin(r, n, g, next, m, p);
    }
  }

  /** A call keeps an unexpired id's origin, one place further back if it was accepted. */
  lemma CarryOrigin(r: Run, n: nat, g: Guard, next: Guard, m: nat, p: nat, i: nat)
    requires 0 < n <= |r.calls| == |r.answers| && r.calls[n - 1].Some? && m + p < |g.order|
    requires next.order == g.order[m..] + (if r.answers[n - 1] then [r.calls[n - 1].value.id] else [])
    requires ExpiryOf(next, g.order[m + p]) == ExpiryOf(g, g.order[m + p]) > r.calls[n - 1].value.now
    requires i < n - 1 && HasOrigin(r, n - 1, g, m + p, i)
    ensures HasOrigin(r, n, next, p, i)
  {
    assert next.order[p] == g.order[m + p];
    assert |next.order| == |g.order| - m + if r.answers[n - 1] then 1 else 0;
  }

  lemma NewOrigin(r: Run, n: nat, g: Guard, next: Guard, m: nat, p: nat)
    requires 0 < n <= |r.calls| == |r.answers| && r.calls[n - 1].Some? && m <= |g.order| <= m + p && p < |next.order|
    requires next.order == g.order[m..] + (if r.answers[n - 1] then [r.calls[n - 1].value.id] else [])
    requires r.answers[n - 1] ==> ExpiryOf(next, r.calls[n - 1].value.id) == r.calls[n - 1].value.expires
    ensures HasOrigin(r, n, next, p, n - 1)
  {
    assert r.answers[n - 1] && p == |g.order| - m;
  }

  lemma {:induction false} FewerSince(answers: seq<bool>, i: nat, k: nat, n: nat)
    requires i <= k <= n <= |answers|
    ensures AcceptedBetween(answers, k, n) <= AcceptedBetween(answers, i, n)
  {
    if k < n { FewerSince(answers, i, k, n - 1); }
  }

  lemma SortedAt(r: Run, n: nat)
    requires |r.states| == |r.calls| + 1 && |r.answers| == |r.calls| && r.states[0] == EMPTY && n <= |r.calls|
    requires ExpireInOrder(r) && forall k: nat :: k < n ==> Leaves(r, k)
    ensures SortedByExpiry(r.states[n])
  {
    var g := r.states[n];
    forall p: nat, q: nat | p < q < |g.order| ensures ExpiryOf(g, g.order[p]) <= ExpiryOf(g, g.order[q]) {
      var i := Origin(r, n, p);
      var k := Origin(r, n, q);
      if k < i { FewerSince(r.answers, k + 1, i + 1, n); }
    }
  }

  lemma RunLeaves(maxEntries: nat, r: Run, n: nat)
    requires IsRun(maxEntries, r) && r.states[0] == EMPTY && ExpireInOrder(r) && n <= |r.calls|
    ensures (forall k: nat :: k < n ==> Leaves(r, k)) && SortedByExpiry(r.states[n])
  {
    var m := 0;
    while m < n
      invariant m <= n && (forall k: nat :: k < m ==> Leaves(r, k))
    {
      SortedAt(r, m);
      StepLeaves(maxEntries, r, m);
      m := m + 1;
    }
    SortedAt(r, n);
  }

  /** Where accepted ids expire in the order they came, the in-memory guard is exact: a
      call is refused if and only if an earlier accepted call of its id is outlived by
      no time seen since and is among the last `maxEntries` accepted. */
  lemma MemoryReplayExact(maxEntries: nat, r: Run, j: nat)
    requires IsRun(maxEntries, r) && r.states[0] == EMPTY && ExpireInOrder(r)
    requires j < |r.calls| && r.calls[j].Some?
    ensures r.answers[j] <==> forall i: nat :: i < j ==> !Remembered(maxEntries, r, i, j)
  {
    if i: nat :| i < j && Remembered(maxEntries, r, i, j) { NoReplay(maxEntries, r, i, j); }
    if !r.answers[j] {
      var i := Refuser(maxEntries, r, j);
    }
  }

  lemma Refuser(maxEntries: nat, r: Run, j: nat) returns (i: nat)
    requires IsRun(maxEntries, r) && r.states[0] == EMPTY && ExpireInOrder(r)
    requires j < |r.calls| && r.calls[j].Some? && !r.answers[j]
    ensures i < j && Remembered(maxEntries, r, i, j)
  {
    RunLeaves(maxEntries, r, j);
    var p := RefusedPosition(maxEntries, r, j);
    i := Origin(r, j, p);
  }

  lemma RefusedPosition(maxEntries: nat, r: Run, j: nat) returns (p: nat)
    requires IsRun(maxEntries, r) && j < |r.calls| && r.calls[j].Some? && !r.answers[j] && SortedByExpiry(r.states[j])
    ensures p < |r.states[j].order| <= maxEntries && r.states[j].order[p] == r.calls[j].value.id
    ensures ExpiryOf(r.states[j], r.calls[j].value.id) > r.calls[j].value.now
  {
    assert IsStep(maxEntries, r, j);
    RunValid(maxEntries, r, j);
    p := UnexpiredPosition(r.states[j], maxEntries, r.calls[j].value);
  }

  lemma UnexpiredPosition(g: Guard, maxEntries: nat, c: Call) returns (p: nat)
    requires ValidGuard(g, maxEntries) && SortedByExpiry(g) && !Admits(g, c)
    ensures p < |g.order| && g.order[p] == c.id && ExpiryOf(g, c.id) > c.now
  {
    PurgeValid(g, maxEntries, c.now);
    var m := PurgeOfSorted(g, maxEntries, c.now);
    var u := Purge(g, c.now);
    ElementsAre(u.order, c.id);
    var q :| 0 <= q < |u.order| && u.order[q] == c.id;
    p := m + q;
  }

  // ----- the capacity condition is exact

  function After(maxEntries: nat, calls: seq<Call>): (g: Guard)
    requires maxEntries >= 1
    ensures ValidGuard(g, maxEntries)
  {
    if calls == [] then EMPTY
    else
      var before := After(maxEntries, Init(calls));
      AdvanceValid(before, maxEntries, Last(calls));
      Advance(before, maxEntries, Last(calls))
  }

  predicate AcceptedAt(maxEntries: nat, calls: seq<Call>, i: nat)
    requires maxEntries >= 1 && i < |calls|
  {
    Admits(After(maxEntries, calls[..i]), calls[i])
  }

  function AcceptedIds(maxEntries: nat, calls: seq<Call>): seq<string>
    requires maxEntries >= 1
  {
    if calls == [] then []
    else
      AcceptedIds(maxEntries, Init(calls)) +
      if Admits(After(maxEntries, Init(calls)), Last(calls)) then [Last(calls).id] else []
  }

  function LastOf(s: seq<string>, n: nat): seq<string> { if |s| <= n then s else s[|s| - n..] }

  /** Nothing in the run is ever past its expiry. */
  ghost predicate NothingExpires(calls: seq<Call>) {
    forall c, d :: c in calls && d in calls ==> d.now < c.expires
  }

  /** Every held id expires as some call of the run said, so none has expired. */
  ghost predicate Sourced(g: Guard, calls: seq<Call>) {
    forall id :: id in g.seen ==> exists c :: c in calls && g.seen[id].expiry == c.expires
  }

  lemma LiveIsNotPurged(g: Guard, maxEntries: nat, calls: seq<Call>, now: int)
    requires ValidGuard(g, maxEntries) && Sourced(g, calls)
    requires forall c :: c in calls ==> now < c.expires
    ensures Purge(g, now) == g
  {
    if g.order != [] { assert g.order[0] in g.seen; }
  }

  lemma AdvanceSourced(g: Guard, maxEntries: nat, calls: seq<Call>, c: Call)
    requires maxEntries >= 1 && ValidGuard(g, maxEntries) && Sourced(g, calls) && Purge(g, c.now) == g
    ensures Sourced(Advance(g, maxEntries, c), calls + [c])
  {
    var r := Advance(g, maxEntries, c);
    forall id | id in r.seen ensures exists d :: d in calls + [c] && r.seen[id].expiry == d.expires {
      if id in g.seen && r.seen[id] == g.seen[id] {
        var d :| d in calls && g.seen[id].expiry == d.expires;
        assert d in calls + [c];
      } else {
        assert c in calls + [c] && r.seen[id].expiry == c.expires;
      }
    }
  }

  lemma AdvanceShifts(g: Guard, maxEntries: nat, c: Call, ids: seq<string>)
    requires maxEntries >= 1 && ValidGuard(g, maxEntries) && Purge(g, c.now) == g && Admits(g, c)
    requires g.order == LastOf(ids, maxEntries)
    ensures Advance(g, maxEntries, c).order == LastOf(ids + [c.id], maxEntries)
  {
  }

  lemma RememberStep(maxEntries: nat, g: Guard, ids: seq<string>, init: seq<Call>, c: Call)
    requires maxEntries >= 1 && ValidGuard(g, maxEntries)
    requires g.order == LastOf(ids, maxEntries) && Sourced(g, init)
    requires forall d :: d in init ==> c.now < d.expires
    ensures Advance(g, maxEntries, c).order == LastOf(ids + if Admits(g, c) then [c.id] else [], maxEntries)
    ensures Sourced(Advance(g, maxEntries, c), init + [c])
  {
    LiveIsNotPurged(g, maxEntries, init, c.now);
    AdvanceSourced(g, maxEntries, init, c);
    if Admits(g, c) { AdvanceShifts(g, maxEntries, c, ids); } else { assert ids + [] == ids; }
  }

  lemma {:induction false} RemembersTheLast(maxEntries: nat, calls: seq<Call>)
    requires maxEntries >= 1 && NothingExpires(calls)
    ensures After(maxEntries, calls).order == LastOf(AcceptedIds(maxEntries, calls), maxEntries)
    ensures Sourced(After(maxEntries, calls), calls)
  {
    if calls != [] {
      var init, c := Init(calls), Last(calls);
      assert calls == init + [c];
      RemembersTheLast(maxEntries, init);
      RememberStep(maxEntries, After(maxEntries, init), AcceptedIds(maxEntries, init), init, c);
    }
  }

  /** With no expiry in play, an id is refused exactly when it is among the last
      `maxEntries` accepted ids. */
  lemma CapacityIsExact(maxEntries: nat, calls: seq<Call>, j: nat)
    requires maxEntries >= 1 && j < |calls| && NothingExpires(calls)
    ensures AcceptedAt(maxEntries, calls, j) <==>
            calls[j].id !in LastOf(AcceptedIds(maxEntries, calls[..j]), maxEntries)
  {
    assert forall d :: d in calls[..j] ==> d in calls;
    RemembersTheLast(maxEntries, calls[..j]);
    LiveIsNotPurged(After(maxEntries, calls[..j]), maxEntries, calls[..j], calls[j].now);
    ElementsAre(After(maxEntries, calls[..j]).order, calls[j].id);
  }

  // ----- the SQLite guard

  type Table = map<string, Entry>

  function Unexpired(t: Table, now: int): Table { map id | id in t && t[id].expiry > now :: t[id] }

  predicate SqlAdmits(t: Table, c: Call) { c.id !in Unexpired(t, c.now) }

  function SqlAdvance(t: Table, c: Call): Table {
    if SqlAdmits(t, c) then Unexpired(t, c.now)[c.id := Entry(c.fingerprint, c.expires)] else Unexpired(t, c.now)
  }

  /** `SQLiteReplayGuard`: one transaction per call over `request_replays`. */
  class SQLiteReplayGuard {
    var requestReplays: Table

    constructor ()
      ensures requestReplays == map[]
    {
      requestReplays := map[];
    }

    method Consume(c: Call) returns (accepted: bool)
      modifies this
      ensures accepted == SqlAdmits(old(requestReplays), c)
      ensures requestReplays == SqlAdvance(old(requestReplays), c)
    {
      requestReplays := map id | id in requestReplays && !(requestReplays[id].expiry <= c.now) :: requestReplays[id];
      if c.id in requestReplays {
        return false;
      }
      requestReplays := requestReplays[c.id := Entry(c.fingerprint, c.expires)];
      return true;
    }
  }

  /** Runs of the durable guard: None stands for a moment at which something else
      happened and the guard was not called. */
  function SqlAfter(calls: seq<Option<Call>>): Table {
    if calls == [] then map[]
    else if Last(calls).None? then SqlAfter(Init(calls))
    else SqlAdvance(SqlAfter(Init(calls)), Last(calls).value)
  }

  predicate SqlAcceptedAt(calls: seq<Option<Call>>, i: nat)
    requires i < |calls|
  {
    calls[i].Some? && SqlAdmits(SqlAfter(calls[..i]), calls[i].value)
  }

  /** No time seen after call `i` and before position `n` reached its expiry. */
  ghost predicate LiveUntil(calls: seq<Option<Call>>, i: nat, n: nat)
    requires i < n <= |calls| && calls[i].Some?
  {
    forall k :: i < k < n && calls[k].Some? ==> calls[k].value.now < calls[i].value.expires
  }

  lemma {:induction false} SqlKeeps(calls: seq<Option<Call>>, i: nat, n: nat)
    requires i < n <= |calls| && SqlAcceptedAt(calls, i) && LiveUntil(calls, i, n)
    ensures var c := calls[i].value;
            c.id in SqlAfter(calls[..n]) && SqlAfter(calls[..n])[c.id].expiry == c.expires
  {
    assert Init(calls[..n]) == calls[..n - 1];
    if n > i + 1 { SqlKeeps(calls, i, n - 1); }
  }

  lemma {:induction false} SqlOrigin(calls: seq<Option<Call>>, n: nat, id: string) returns (i: nat)
    requires n <= |calls| && id in SqlAfter(calls[..n])
    ensures i < n && SqlAcceptedAt(calls, i) && calls[i].value.id == id && LiveUntil(calls, i, n)
    ensures SqlAfter(calls[..n])[id].expiry == calls[i].value.expires
  {
    assert n > 0;
    assert Init(calls[..n]) == calls[..n - 1];
    if SqlAcceptedAt(calls, n - 1) && calls[n - 1].value.id == id {
      i := n - 1;
    } else {
      i := SqlOrigin(calls, n - 1, id);
    }
  }

  /** An earlier accepted call with the id of call `j` that no time seen since, that
      of call `j` included, has outlived. */
  ghost predicate StillLive(calls: seq<Option<Call>>, i: nat, j: nat)
    requires i < j < |calls| && calls[j].Some?
  {
    SqlAcceptedAt(calls, i) && calls[i].value.id == calls[j].value.id && LiveUntil(calls, i, j + 1)
  }

  /** The durable guard is exact: a call is accepted if and only if every earlier
      accepted call with its id has been outlived by some time seen since. */
  lemma SqlReplayExact(calls: seq<Option<Call>>, j: nat)
    requires j < |calls| && calls[j].Some?
    ensures SqlAcceptedAt(calls, j) <==> forall i :: 0 <= i < j ==> !StillLive(calls, i, j)
  {
    if i: nat :| i < j && StillLive(calls, i, j) {
      assert LiveUntil(calls, i, j);
      SqlKeeps(calls, i, j);
    }
    if !SqlAcceptedAt(calls, j) {
      var i := SqlOrigin(calls, j, calls[j].value.id);
      assert StillLive(calls, i, j);
    }
  }
}
