/** Orders used by the sorting calls of the program.

    Python compares `str` values code point by code point and tuples component
    by component.  Every sort key of the program is a tuple of strings, at most
    once preceded by an integer (the negated score of a search hit), so one key
    type serves every sort.  `list.sort` and `sorted` are stable; `SortBy` is the
    stable insertion sort that specifies them. */
module Ordering {

  datatype Option<+T> = None | Some(value: T)

  datatype Result<+T, +E> = Ok(value: T) | Err(error: E)

  function Init<T>(s: seq<T>): seq<T> requires s != [] { s[..|s| - 1] }

  function Last<T>(s: seq<T>): T requires s != [] { s[|s| - 1] }

  predicate StrLess(a: string, b: string) {
    |b| > 0 && (|a| == 0 || a[0] < b[0] || (a[0] == b[0] && StrLess(a[1..], b[1..])))
  }

  predicate PartsLess(a: seq<string>, b: seq<string>) {
    |b| > 0 && (|a| == 0 || StrLess(a[0], b[0]) || (a[0] == b[0] && PartsLess(a[1..], b[1..])))
  }

  datatype Key = Key(rank: int, parts: seq<string>)

  predicate KeyLess(a: Key, b: Key) {
    a.rank < b.rank || (a.rank == b.rank && PartsLess(a.parts, b.parts))
  }

  lemma {:induction false} StrOrder(a: string, b: string)
    ensures !(StrLess(a, b) && StrLess(b, a))
    ensures !StrLess(a, a)
    ensures StrLess(a, b) || a == b || StrLess(b, a)
  {
    if |a| > 0 && |b| > 0 {
      StrOrder(a[1..], b[1..]);
      if a[0] == b[0] && a[1..] == b[1..] {
        assert a == [a[0]] + a[1..] && b == [b[0]] + b[1..];
      }
    }
    if |a| > 0 { StrOrder(a[1..], a[1..]); }
  }

  /** What the order is: a proper prefix comes first; otherwise the first position
      at which the strings differ decides. */
  lemma {:induction false} StrLessMeans(a: string, b: string)
    ensures StrLess(a, b) <==> exists k: nat :: DecidesAt(a, b, k)
  {
    if |a| > 0 && |b| > 0 && a[0] == b[0] {
      StrLessMeans(a[1..], b[1..]);
      if k: nat :| DecidesAt(a[1..], b[1..], k) {
        assert a[..k + 1] == [a[0]] + a[1..][..k] && b[..k + 1] == [b[0]] + b[1..][..k];
        assert DecidesAt(a, b, k + 1);
      }
      if k: nat :| DecidesAt(a, b, k) {
        assert k > 0;
        assert a[1..][..k - 1] == a[1..k] == a[..k][1..] && b[1..][..k - 1] == b[1..k] == b[..k][1..];
        assert DecidesAt(a[1..], b[1..], k - 1);
      }
    } else if |b| > 0 && (|a| == 0 || a[0] < b[0]) {
      assert DecidesAt(a, b, 0);
    }
  }

  predicate DecidesAt(a: string, b: string, k: nat) {
    k < |b| && k <= |a| && a[..k] == b[..k] && (k == |a| || a[k] < b[k])
  }

  /** Keys of three strings compare by rank, then component by component. */
  lemma KeyLessMeans(a: Key, b: Key)
    requires |a.parts| == |b.parts| == 3
    ensures KeyLess(a, b) <==>
            || a.rank < b.rank
            || (a.rank == b.rank && TripleLess(a.parts[0], a.parts[1], a.parts[2], b.parts[0], b.parts[1], b.parts[2]))
  {
    var s, t := a.parts[1..], b.parts[1..];
    assert s[0] == a.parts[1] && t[0] == b.parts[1];
    assert s[1..] == [a.parts[2]] && t[1..] == [b.parts[2]];
    assert PartsLess([a.parts[2]], [b.parts[2]]) <==> StrLess(a.parts[2], b.parts[2]);
    assert PartsLess(s, t) <==> StrLess(s[0], t[0]) || (s[0] == t[0] && PartsLess(s[1..], t[1..]));
  }

  predicate TripleLess(a: string, b: string, c: string, a': string, b': string, c': string) {
    StrLess(a, a') || (a == a' && (StrLess(b, b') || (b == b' && StrLess(c, c'))))
  }

  lemma {:induction false} StrTransitive(a: string, b: string, c: string)
    requires StrLess(a, b) && StrLess(b, c)
    ensures StrLess(a, c)
  {
    if |a| > 0 && a[0] == b[0] == c[0] { StrTransitive(a[1..], b[1..], c[1..]); }
  }

  lemma {:induction false} PartsOrder(a: seq<string>, b: seq<string>)
    ensures !(PartsLess(a, b) && PartsLess(b, a))
    ensures !PartsLess(a, a)
    ensures PartsLess(a, b) || a == b || PartsLess(b, a)
  {
    if |a| > 0 && |b| > 0 {
      StrOrder(a[0], b[0]);
      PartsOrder(a[1..], b[1..]);
      if a[0] == b[0] && a[1..] == b[1..] {
        assert a == [a[0]] + a[1..] && b == [b[0]] + b[1..];
      }
    }
    if |a| > 0 {
      StrOrder(a[0], a[0]);
      PartsOrder(a[1..], a[1..]);
    }
  }

  lemma {:induction false} PartsTransitive(a: seq<string>, b: seq<string>, c: seq<string>)
    requires PartsLess(a, b) && PartsLess(b, c)
    ensures PartsLess(a, c)
  {
    if |a| > 0 {
      StrOrder(a[0], b[0]);
      StrOrder(b[0], c[0]);
      if a[0] == b[0] == c[0] {
        PartsTransitive(a[1..], b[1..], c[1..]);
      } else if a[0] != b[0] && b[0] != c[0] {
        StrTransitive(a[0], b[0], c[0]);
      }
    }
  }

  /** `KeyLess` is a strict total order. */
  lemma KeyOrder(a: Key, b: Key)
    ensures !(KeyLess(a, b) && KeyLess(b, a))
    ensures !KeyLess(a, a)
    ensures KeyLess(a, b) || a == b || KeyLess(b, a)
  {
    PartsOrder(a.parts, b.parts);
    PartsOrder(a.parts, a.parts);
  }

  lemma KeyTransitive(a: Key, b: Key, c: Key)
    requires KeyLess(a, b) && KeyLess(b, c)
    ensures KeyLess(a, c)
  {
    if a.rank == b.rank == c.rank { PartsTransitive(a.parts, b.parts, c.parts); }
  }

  // ----- sorting by key

  ghost predicate Increasing<T>(key: T -> Key, s: seq<T>) {
    forall i, j :: 0 <= i < j < |s| ==> KeyLess(key(s[i]), key(s[j]))
  }

  ghost predicate DistinctKeys<T>(key: T -> Key, s: seq<T>) {
    forall i, j :: 0 <= i < j < |s| ==> key(s[i]) != key(s[j])
  }

  function Insert<T>(key: T -> Key, x: T, s: seq<T>): seq<T> {
    if s == [] then [x]
    else if KeyLess(key(x), key(s[0])) then [x] + s
    else [s[0]] + Insert(key, x, s[1..])
  }

  /** The stable sort behind `list.sort(key=...)`. */
  function SortBy<T>(key: T -> Key, s: seq<T>): seq<T> {
    if s == [] then [] else Insert(key, s[|s| - 1], SortBy(key, s[..|s| - 1]))
  }

  lemma {:induction false} InsertMembers<T>(key: T -> Key, x: T, s: seq<T>)
    ensures multiset(Insert(key, x, s)) == multiset(s) + multiset{x}
    ensures |Insert(key, x, s)| == |s| + 1
    ensures forall y :: y in Insert(key, x, s) <==> y == x || y in s
  {
    if s != [] {
      assert s == [s[0]] + s[1..];
      InsertMembers(key, x, s[1..]);
    }
  }

  lemma {:induction false} SortMembers<T>(key: T -> Key, s: seq<T>)
    ensures multiset(SortBy(key, s)) == multiset(s)
    ensures |SortBy(key, s)| == |s|
    ensures forall y :: y in SortBy(key, s) <==> y in s
  {
    if s != [] {
      var init := s[..|s| - 1];
      assert s == init + [s[|s| - 1]];
      SortMembers(key, init);
      InsertMembers(key, s[|s| - 1], SortBy(key, init));
    }
  }

  lemma {:induction false} InsertIncreasing<T>(key: T -> Key, x: T, s: seq<T>)
    requires Increasing(key, s)
    requires forall y :: y in s ==> key(y) != key(x)
    ensures Increasing(key, Insert(key, x, s))
  {
    if s == [] {
    } else if KeyLess(key(x), key(s[0])) {
      forall j | 0 < j < |s| ensures KeyLess(key(x), key(s[j])) {
        KeyTransitive(key(x), key(s[0]), key(s[j]));
      }
    } else {
      assert s[0] in s;
      KeyOrder(key(x), key(s[0]));
      assert forall y :: y in s[1..] ==> y in s;
      InsertIncreasing(key, x, s[1..]);
      InsertMembers(key, x, s[1..]);
      var t := Insert(key, x, s[1..]);
      forall j | 0 <= j < |t| ensures KeyLess(key(s[0]), key(t[j])) {
        assert t[j] in t;
        if t[j] != x {
          assert t[j] in multiset(t);
          assert t[j] in s[1..];
          var i :| 0 <= i < |s[1..]| && s[1..][i] == t[j];
          assert s[i + 1] == t[j];
        }
      }
    }
  }

  lemma {:induction false} SortIncreasing<T>(key: T -> Key, s: seq<T>)
    requires DistinctKeys(key, s)
    ensures Increasing(key, SortBy(key, s))
  {
    if s != [] {
      var init := s[..|s| - 1];
      SortIncreasing(key, init);
      SortMembers(key, init);
      forall y | y in SortBy(key, init) ensures key(y) != key(s[|s| - 1]) {
        assert y in multiset(SortBy(key, init));
        assert y in init;
        var i :| 0 <= i < |init| && init[i] == y;
        assert s[i] == y;
      }
      InsertIncreasing(key, s[|s| - 1], SortBy(key, init));
    }
  }

  lemma {:induction false} InsertAtEnd<T>(key: T -> Key, x: T, s: seq<T>)
    requires forall y :: y in s ==> !KeyLess(key(x), key(y))
    ensures Insert(key, x, s) == s + [x]
  {
    if s != [] {
      assert s[0] in s;
      assert forall y :: y in s[1..] ==> y in s;
      InsertAtEnd(key, x, s[1..]);
      assert s == [s[0]] + s[1..];
    }
  }

  /** Sorting what is already in order changes nothing. */
  lemma {:induction false} SortOfIncreasing<T>(key: T -> Key, s: seq<T>)
    requires Increasing(key, s)
    ensures SortBy(key, s) == s
  {
    if s != [] {
      var init := s[..|s| - 1];
      SortOfIncreasing(key, init);
      forall y | y in init ensures !KeyLess(key(s[|s| - 1]), key(y)) {
        KeyOrder(key(s[|s| - 1]), key(y));
      }
      InsertAtEnd(key, s[|s| - 1], init);
      assert s == init + [s[|s| - 1]];
    }
  }

  /** There is one increasing listing of a collection, so a sort on distinct
      keys does not depend on the order of its input. */
  lemma {:induction false} IncreasingUnique<T>(key: T -> Key, a: seq<T>, b: seq<T>)
    requires Increasing(key, a) && Increasing(key, b)
    requires forall x :: x in a <==> x in b
    ensures a == b
  {
    assert a == [] || a[0] in b;
    assert b == [] || b[0] in a;
    if a != [] {
      HeadIsLeast(key, a, b);
      HeadIsLeast(key, b, a);
      KeyOrder(key(a[0]), key(b[0]));
      assert a[0] == b[0];
      forall x ensures x in a[1..] <==> x in b[1..] {
        TailMembers(key, a, x);
        TailMembers(key, b, x);
      }
      IncreasingUnique(key, a[1..], b[1..]);
      assert a == [a[0]] + a[1..] && b == [b[0]] + b[1..];
    }
  }

  lemma HeadIsLeast<T>(key: T -> Key, a: seq<T>, b: seq<T>)
    requires Increasing(key, b) && a != [] && b != [] && a[0] in b
    ensures a[0] == b[0] || KeyLess(key(b[0]), key(a[0]))
  {
    var i :| 0 <= i < |b| && b[i] == a[0];
  }

  lemma TailMembers<T>(key: T -> Key, a: seq<T>, x: T)
    requires Increasing(key, a) && a != []
    ensures x in a[1..] <==> x in a && x != a[0]
  {
    KeyOrder(key(a[0]), key(a[0]));
    if x in a && x != a[0] {
      var i :| 0 <= i < |a| && a[i] == x;
      assert a[1..][i - 1] == x;
    }
    if x in a[1..] {
      var i :| 0 <= i < |a[1..]| && a[1..][i] == x;
      assert a[i + 1] == x;
    }
  }

  lemma SortPermutation<T>(key: T -> Key, a: seq<T>, b: seq<T>)
    requires DistinctKeys(key, a) && DistinctKeys(key, b)
    requires forall x :: x in a <==> x in b
    ensures SortBy(key, a) == SortBy(key, b)
  {
    SortIncreasing(key, a);
    SortIncreasing(key, b);
    SortMembers(key, a);
    SortMembers(key, b);
    IncreasingUnique(key, SortBy(key, a), SortBy(key, b));
  }

  // ----- sorted(set(values))

  function StrKey(s: string): Key { Key(0, [s]) }

  function AddToSet(x: string, s: seq<string>): seq<string> {
    if x in s then s else Insert(StrKey, x, s)
  }

  /** `tuple(sorted(set(values)))`. */
  function SortedSet(xs: seq<string>): seq<string> {
    if xs == [] then [] else AddToSet(xs[|xs| - 1], SortedSet(xs[..|xs| - 1]))
  }

  lemma {:induction false} SortedSetSpec(xs: seq<string>)
    ensures Increasing(StrKey, SortedSet(xs))
    ensures forall y :: y in SortedSet(xs) <==> y in xs
  {
    if xs != [] {
      var init, last := xs[..|xs| - 1], xs[|xs| - 1];
      assert xs == init + [last];
      SortedSetSpec(init);
      if last !in SortedSet(init) {
        InsertIncreasing(StrKey, last, SortedSet(init));
        InsertMembers(StrKey, last, SortedSet(init));
      }
    }
  }

  /** The result depends on the set of values alone, and taking it twice adds nothing. */
  lemma SortedSetCanonical(xs: seq<string>, ys: seq<string>)
    requires forall y :: y in xs <==> y in ys
    ensures SortedSet(xs) == SortedSet(ys)
    ensures SortedSet(SortedSet(xs)) == SortedSet(xs)
  {
    SortedSetSpec(xs);
    SortedSetSpec(ys);
    SortedSetSpec(SortedSet(xs));
    IncreasingUnique(StrKey, SortedSet(xs), SortedSet(ys));
    IncreasingUnique(StrKey, SortedSet(SortedSet(xs)), SortedSet(xs));
  }
}
